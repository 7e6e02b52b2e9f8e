/** Splitting bytes into newline-terminated lines. */
module Newlines {
  import opened Wrappers
  import opened Bytes
  import Seqs

  const NEWLINE: byte := 10

  function FindNewline(s: seq<byte>): (r: Option<nat>)
    ensures r.Some? ==> r.value < |s| && s[r.value] == NEWLINE && NEWLINE !in s[..r.value]
    ensures r.None? ==> NEWLINE !in s
  {
    if s == [] then None
    else if s[0] == NEWLINE then Some(0)
    else
      match FindNewline(s[1..])
      case None => None
      case Some(n) =>
        assert s[..n + 1] == [s[0]] + s[1..][..n];
        Some(n + 1)
  }

  /** The newline-terminated lines; what follows the last newline is not a line. */
  function Lines(s: seq<byte>): seq<seq<byte>>
    decreases |s|
  {
    match FindNewline(s)
    case None => []
    case Some(n) => [s[..n]] + Lines(s[n + 1..])
  }

  lemma {:induction false} FindUnique(s: seq<byte>, n: nat)
    requires n < |s| && s[n] == NEWLINE && NEWLINE !in s[..n]
    ensures FindNewline(s) == Some(n)
  {
    if n > 0 {
      assert s[0] == s[..n][0];
      assert s[1..][..n - 1] == s[..n][1..];
      FindUnique(s[1..], n - 1);
    }
  }

  /** A complete line at the head does not change when more bytes arrive. */
  lemma HeadLine(s: seq<byte>, t: seq<byte>, n: nat)
    requires FindNewline(s) == Some(n)
    ensures Lines(s + t) == [s[..n]] + Lines(s[n + 1..] + t)
  {
    assert (s + t)[..n] == s[..n];
    FindUnique(s + t, n);
    assert (s + t)[n + 1..] == s[n + 1..] + t;
  }

  /** Bytes after the last newline are dropped, even if they would parse. */
  lemma {:induction false} UnterminatedTailDropped(s: seq<byte>, t: seq<byte>)
    requires (s != [] ==> s[|s| - 1] == NEWLINE) && NEWLINE !in t
    ensures Lines(s + t) == Lines(s)
    decreases |s|
  {
    if s == [] {
      assert s + t == t;
    } else {
      var n := FindNewline(s).value;
      HeadLine(s, t, n);
      UnterminatedTailDropped(s[n + 1..], t);
    }
  }

  /** What follows the last newline. */
  function Rest(s: seq<byte>): (r: seq<byte>)
    ensures NEWLINE !in r
    decreases |s|
  {
    match FindNewline(s)
    case None => s
    case Some(n) => Rest(s[n + 1..])
  }

  lemma NothingBefore(s: seq<byte>, t: seq<byte>)
    requires s == []
    ensures s + t == t && Lines(s) + Lines(t) == Lines(t)
  {
  }

  /** Bytes appended behind a newline add their own lines and leave the others alone. */
  lemma {:induction false} LinesAppend(s: seq<byte>, t: seq<byte>)
    requires Rest(s) == []
    ensures Lines(s + t) == Lines(s) + Lines(t) && Rest(s + t) == Rest(t)
    decreases |s|
  {
    match FindNewline(s) {
      case None =>
        NothingBefore(s, t);
      case Some(n) =>
        HeadLine(s, t, n);
        HeadRest(s, t, n);
        LinesAppend(s[n + 1..], t);
        Seqs.Assoc([s[..n]], Lines(s[n + 1..]), Lines(t));
    }
  }

  lemma HeadRest(s: seq<byte>, t: seq<byte>, n: nat)
    requires FindNewline(s) == Some(n)
    ensures Rest(s + t) == Rest(s[n + 1..] + t)
  {
    assert (s + t)[..n] == s[..n];
    FindUnique(s + t, n);
    assert (s + t)[n + 1..] == s[n + 1..] + t;
  }

  lemma OneLine(line: seq<byte>)
    requires NEWLINE !in line
    ensures Lines(line) == [] && Rest(line) == line
    ensures Lines(line + [NEWLINE]) == [line] && Rest(line + [NEWLINE]) == []
  {
    var s := line + [NEWLINE];
    assert s[..|line|] == line && s[|line| + 1..] == [];
    FindUnique(s, |line|);
    assert Lines(s) == [line] + Lines([]);
    assert Rest(s) == Rest([]);
  }
}
