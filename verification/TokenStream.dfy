/** Re-emitting a model's token stream: lines are reassembled across arbitrary chunk boundaries,
    and what the client gets depends only on the bytes. */
module TokenStream {
  import opened Wrappers
  import opened Bytes
  import opened Newlines
  import Seqs

  /** The fields read from one JSON line. */
  datatype Record = Record(response: Option<string>, done: bool, evalCount: Option<u64>)

  datatype Event = Token(text: string) | Final(tokens: u64)

  /** A chunk of the response body, or a broken connection. */
  type Arrival = Result<seq<byte>, ()>

  function TokenOf(r: Record): seq<Event> {
    if r.response.Some? && r.response.value != "" then [Token(r.response.value)] else []
  }

  /** Tokens of the parsable lines in order, up to the first done record. */
  function Emit(lines: seq<seq<byte>>, parse: seq<byte> -> Option<Record>): seq<Event> {
    if lines == [] then [Final(0)]
    else if lines[0] == [] then Emit(lines[1..], parse)
    else
      match parse(lines[0])
      case None => Emit(lines[1..], parse)
      case Some(r) =>
        TokenOf(r) +
        if r.done then [Final(if r.evalCount.Some? then r.evalCount.value else 0)] else Emit(lines[1..], parse)
  }

  function Batch(bytes: seq<byte>, parse: seq<byte> -> Option<Record>): seq<Event> {
    Emit(Lines(bytes), parse)
  }

  /** The bytes that arrive before the connection breaks or ends. */
  function Joined(chunks: seq<Arrival>): seq<byte> {
    if chunks == [] || chunks[0].Err? then [] else chunks[0].value + Joined(chunks[1..])
  }

  function Take(s: seq<Event>, n: nat): seq<Event> {
    if n < |s| then s[..n] else s
  }

  /** The output is tokens followed by exactly one final record. */
  lemma {:induction false} OneFinalAtEnd(lines: seq<seq<byte>>, parse: seq<byte> -> Option<Record>)
    ensures var out := Emit(lines, parse);
      out != [] && out[|out| - 1].Final? && forall i :: 0 <= i < |out| - 1 ==> out[i].Token? && out[i].text != ""
  {
    if lines != [] {
      OneFinalAtEnd(lines[1..], parse);
    }
  }

  /** Lines after the first done record have no effect. */
  lemma {:induction false} NothingAfterDone(before: seq<seq<byte>>, last: seq<byte>, after: seq<seq<byte>>,
      parse: seq<byte> -> Option<Record>)
    requires last != [] && parse(last).Some? && parse(last).value.done
    ensures Emit(before + [last] + after, parse) == Emit(before + [last], parse)
  {
    if before == [] {
      assert [] + [last] + after == [last] + after && [] + [last] == [last];
    } else {
      NothingAfterDone(before[1..], last, after, parse);
      assert (before + [last] + after)[1..] == before[1..] + [last] + after;
      assert (before + [last])[1..] == before[1..] + [last];
    }
  }

  // ---------------------------------------------------------- which messages, said by line numbers

  type Parser = seq<byte> -> Option<Record>

  /** Line `i` reads as a record that ends the stream. */
  predicate Ends(lines: seq<seq<byte>>, parse: Parser, i: nat) {
    i < |lines| && lines[i] != [] && parse(lines[i]).Some? && parse(lines[i]).value.done
  }

  /** Line `i` reads as a record with a text. */
  predicate Speaks(lines: seq<seq<byte>>, parse: Parser, i: nat) {
    i < |lines| && lines[i] != [] && parse(lines[i]).Some? && parse(lines[i]).value.response !in {None, Some("")}
  }

  /** `d` is the first line from `from` on that ends the stream, or there is none. */
  ghost predicate LastLine(lines: seq<seq<byte>>, parse: Parser, from: nat, d: nat) {
    && from <= d <= |lines| && (forall i: nat :: from <= i < d ==> !Ends(lines, parse, i))
    && (d < |lines| ==> Ends(lines, parse, d))
  }

  /** `at` lists, in order, the lines with a text up to and including `d`. */
  ghost predicate SpokenAt(lines: seq<seq<byte>>, parse: Parser, from: nat, d: nat, at: seq<nat>) {
    && Increasing(at)
    && forall i: nat :: i in at <==> from <= i <= d && Speaks(lines, parse, i)
  }

  ghost predicate Increasing(at: seq<nat>) {
    forall i, j :: 0 <= i < j < |at| ==> at[i] < at[j]
  }

  /** One message for each listed line, with its text; then the count of the ending record, if it has one. */
  ghost predicate Tells(lines: seq<seq<byte>>, parse: Parser, d: nat, at: seq<nat>, out: seq<Event>) {
    && |out| == |at| + 1
    && (forall j :: 0 <= j < |at| ==>
          Speaks(lines, parse, at[j]) && out[j] == Token(parse(lines[at[j]]).value.response.value))
    && out[|at|] == Final(
      if Ends(lines, parse, d) && parse(lines[d]).value.evalCount.Some? then parse(lines[d]).value.evalCount.value
      else 0)
  }

  ghost predicate ToldFrom(lines: seq<seq<byte>>, parse: Parser, from: nat, out: seq<Event>) {
    exists d: nat, at: seq<nat> ::
      LastLine(lines, parse, from, d) && SpokenAt(lines, parse, from, d, at) && Tells(lines, parse, d, at, out)
  }

  /** What a stream of lines is to be told as: the texts of the records up to the first done one,
      in order, and its token count. */
  ghost predicate Told(lines: seq<seq<byte>>, parse: Parser, out: seq<Event>) {
    ToldFrom(lines, parse, 0, out)
  }

  lemma {:induction false} EmitTells(lines: seq<seq<byte>>, parse: Parser, from: nat)
    requires from <= |lines|
    ensures ToldFrom(lines, parse, from, Emit(lines[from..], parse))
    decreases |lines| - from
  {
    var out := Emit(lines[from..], parse);
    if from == |lines| {
      assert Tells(lines, parse, from, [], out);
      assert SpokenAt(lines, parse, from, from, []);
    } else {
      assert lines[from..][0] == lines[from] && lines[from..][1..] == lines[from + 1..];
      if Ends(lines, parse, from) {
        EndTells(lines, parse, from, out);
      } else {
        EmitTells(lines, parse, from + 1);
        LineTells(lines, parse, from, out, Emit(lines[from + 1..], parse));
      }
    }
  }

  lemma EndTells(lines: seq<seq<byte>>, parse: Parser, d: nat, out: seq<Event>)
    requires Ends(lines, parse, d) && out == TokenOf(parse(lines[d]).value) + [FinalOf(parse(lines[d]).value)]
    ensures ToldFrom(lines, parse, d, out)
  {
    var at: seq<nat> := if Speaks(lines, parse, d) then [d] else [];
    assert SpokenAt(lines, parse, d, d, at);
    assert Tells(lines, parse, d, at, out);
  }

  lemma LineTells(lines: seq<seq<byte>>, parse: Parser, i: nat, out: seq<Event>, rest: seq<Event>)
    requires i < |lines| && !Ends(lines, parse, i) && ToldFrom(lines, parse, i + 1, rest)
    requires out == (if lines[i] != [] && parse(lines[i]).Some? then TokenOf(parse(lines[i]).value) else []) + rest
    ensures ToldFrom(lines, parse, i, out)
  {
    var d: nat, at: seq<nat> :|
      LastLine(lines, parse, i + 1, d) && SpokenAt(lines, parse, i + 1, d, at) && Tells(lines, parse, d, at, rest);
    assert LastLine(lines, parse, i, d);
    if Speaks(lines, parse, i) {
      SpokenBefore(lines, parse, i, d, at);
      TellsBefore(lines, parse, d, at, i, rest);
    } else {
      assert SpokenAt(lines, parse, i, d, at);
      assert out == rest;
    }
  }

  lemma SpokenBefore(lines: seq<seq<byte>>, parse: Parser, i: nat, d: nat, at: seq<nat>)
    requires i < d && Speaks(lines, parse, i) && SpokenAt(lines, parse, i + 1, d, at)
    ensures SpokenAt(lines, parse, i, d, [i] + at)
  {
    forall j | 0 <= j < |at| ensures at[j] > i {
      assert at[j] in at;
    }
    forall j: nat ensures j in [i] + at <==> i <= j <= d && Speaks(lines, parse, j) {
      assert j in [i] + at <==> j == i || j in at;
    }
  }

  lemma TellsBefore(lines: seq<seq<byte>>, parse: Parser, d: nat, at: seq<nat>, i: nat, out: seq<Event>)
    requires Speaks(lines, parse, i) && Tells(lines, parse, d, at, out)
    ensures Tells(lines, parse, d, [i] + at, [Token(parse(lines[i]).value.response.value)] + out)
  {
  }

  /** Without its last, an increasing list has the same members but that one. */
  lemma InitMembers(a: seq<nat>, i: nat)
    requires Increasing(a) && a != []
    ensures var x := a[|a| - 1]; a == a[..|a| - 1] + [x] && (i in a[..|a| - 1] <==> i in a && i != x)
  {
    if i in a && i != a[|a| - 1] {
      var j :| 0 <= j < |a| && a[j] == i;
      assert a[..|a| - 1][j] == i;
    }
  }

  lemma SameLast(a: seq<nat>, b: seq<nat>)
    requires Increasing(a) && Increasing(b) && a != [] && b != []
    requires a[|a| - 1] in b && b[|b| - 1] in a
    ensures a[|a| - 1] == b[|b| - 1]
  {
  }

  /** Two increasing lists of the same numbers are the same list. */
  lemma {:induction false} SameIncreasing(a: seq<nat>, b: seq<nat>)
    requires Increasing(a) && Increasing(b) && forall i: nat :: i in a <==> i in b
    ensures a == b
    decreases |a|
  {
    assert (a != [] ==> a[|a| - 1] in a) && (b != [] ==> b[|b| - 1] in b);
    if a != [] && b != [] {
      SameLast(a, b);
      var a', b' := a[..|a| - 1], b[..|b| - 1];
      forall i: nat ensures i in a' <==> i in b' {
        InitMembers(a, i);
        InitMembers(b, i);
      }
      SameIncreasing(a', b');
      InitMembers(a, a[0]);
      InitMembers(b, b[0]);
    }
  }

  lemma ToldOnce(lines: seq<seq<byte>>, parse: Parser, out: seq<Event>, out': seq<Event>)
    requires Told(lines, parse, out) && Told(lines, parse, out')
    ensures out == out'
  {
    var d: nat, at: seq<nat> :|
      LastLine(lines, parse, 0, d) && SpokenAt(lines, parse, 0, d, at) && Tells(lines, parse, d, at, out);
    var d': nat, at': seq<nat> :|
      LastLine(lines, parse, 0, d') && SpokenAt(lines, parse, 0, d', at') && Tells(lines, parse, d', at', out');
    assert (d < d' ==> !Ends(lines, parse, d)) && (d' < d ==> !Ends(lines, parse, d'));
    SameIncreasing(at, at');
  }

  /** The messages are what the lines are to be told as, and nothing else is. */
  lemma EmitExactly(lines: seq<seq<byte>>, parse: Parser, out: seq<Event>)
    ensures out == Emit(lines, parse) <==> Told(lines, parse, out)
  {
    assert lines[0..] == lines;
    EmitTells(lines, parse, 0);
    if Told(lines, parse, out) {
      ToldOnce(lines, parse, out, Emit(lines, parse));
    }
  }

  /** The batch over some bytes is what their complete lines are to be told as, and nothing else is. */
  lemma BatchExactly(bytes: seq<byte>, parse: Parser, out: seq<Event>)
    ensures out == Batch(bytes, parse) <==> Told(Lines(bytes), parse, out)
  {
    EmitExactly(Lines(bytes), parse, out);
  }

  function FinalOf(r: Record): Event {
    Final(if r.evalCount.Some? then r.evalCount.value else 0)
  }

  /** What the first complete line contributes. */
  lemma BatchStep(buf: seq<byte>, later: seq<byte>, n: nat, parse: seq<byte> -> Option<Record>)
    requires FindNewline(buf) == Some(n)
    ensures var rest, line := Batch(buf[n + 1..] + later, parse), buf[..n];
      Batch(buf + later, parse) ==
        if line == [] || parse(line).None? then rest
        else TokenOf(parse(line).value) + if parse(line).value.done then [FinalOf(parse(line).value)] else rest
  {
    HeadLine(buf, later, n);
    assert ([buf[..n]] + Lines(buf[n + 1..] + later))[1..] == Lines(buf[n + 1..] + later);
  }

  /** After sending `sent` with `rest` still to come, a client that takes `accepts` messages
      ends with `goal`. */
  ghost predicate Due(goal: seq<Event>, sent: seq<Event>, rest: seq<Event>, accepts: nat) {
    |sent| <= accepts && goal == Take(sent + rest, accepts)
  }

  lemma SendOne(goal: seq<Event>, sent: seq<Event>, e: Event, rest: seq<Event>, accepts: nat)
    requires Due(goal, sent, [e] + rest, accepts)
    ensures |sent| == accepts ==> goal == sent
    ensures |sent| < accepts ==> Due(goal, sent + [e], rest, accepts)
  {
    if |sent| == accepts {
      assert (sent + ([e] + rest))[..accepts] == sent;
    } else {
      Seqs.Assoc(sent, [e], rest);
    }
  }

  lemma SendLast(goal: seq<Event>, sent: seq<Event>, e: Event, accepts: nat)
    requires Due(goal, sent, [e], accepts)
    ensures goal == if |sent| < accepts then sent + [e] else sent
  {
    if |sent| == accepts {
      assert (sent + [e])[..accepts] == sent;
    }
  }

  /** What remains to be sent once the first complete line is taken off the buffer. */
  lemma LineDue(goal: seq<Event>, sent: seq<Event>, buf: seq<byte>, n: nat, later: seq<byte>, parse: Parser, accepts: nat)
    requires FindNewline(buf) == Some(n) && Due(goal, sent, Batch(buf + later, parse), accepts)
    ensures var rest, line := Batch(buf[n + 1..] + later, parse), buf[..n];
      if line == [] || parse(line).None? then Due(goal, sent, rest, accepts)
      else
        var v := parse(line).value;
        Due(goal, sent, TokenOf(v) + if v.done then [FinalOf(v)] else rest, accepts)
  {
    BatchStep(buf, later, n, parse);
  }

  lemma NoToken(v: Record, tail: seq<Event>)
    requires TokenOf(v) == []
    ensures TokenOf(v) + tail == tail
  {
  }

  /** The inner loop: every complete line in the buffer. */
  method Drain(buffered: seq<byte>, already: seq<Event>, parse: seq<byte> -> Option<Record>, accepts: nat,
      ghost later: seq<byte>, ghost goal: seq<Event>)
    returns (buf: seq<byte>, sent: seq<Event>, ended: bool)
    requires Due(goal, already, Batch(buffered + later, parse), accepts)
    ensures ended ==> sent == goal
    ensures !ended ==> NEWLINE !in buf && Due(goal, sent, Batch(buf + later, parse), accepts)
  {
    buf, sent, ended := buffered, already, false;
    while true
      invariant Due(goal, sent, Batch(buf + later, parse), accepts)
      decreases |buf|
    {
      var pos := FindNewline(buf);
      if pos.None? {
        return;
      }
      LineDue(goal, sent, buf, pos.value, later, parse, accepts);
      var line := buf[..pos.value];
      buf := buf[pos.value + 1..];
      if line == [] {
        continue;
      }
      var parsed := parse(line);
      if parsed.None? {
        continue;
      }
      var v := parsed.value;
      ghost var tail := if v.done then [FinalOf(v)] else Batch(buf + later, parse);
      if v.response.Some? && v.response.value != "" {
        SendOne(goal, sent, Token(v.response.value), tail, accepts);
        if |sent| == accepts {
          return buf, sent, true;
        }
        sent := sent + [Token(v.response.value)];
      } else {
        NoToken(v, tail);
      }
      if v.done {
        SendLast(goal, sent, FinalOf(v), accepts);
        if |sent| < accepts {
          sent := sent + [FinalOf(v)];
        }
        return buf, sent, true;
      }
    }
  }

  /** Streaming to a client that takes `accepts` messages before it hangs up delivers the first
      `accepts` messages of the batch over the joined bytes: chunk boundaries do not matter. */
  method Stream(chunks: seq<Arrival>, parse: seq<byte> -> Option<Record>, accepts: nat) returns (sent: seq<Event>)
    ensures sent == Take(Batch(Joined(chunks), parse), accepts)
  {
    sent := [];
    var buf: seq<byte> := [];
    var i := 0;
    ghost var goal := Take(Batch(Joined(chunks), parse), accepts);
    assert buf + Joined(chunks) == Joined(chunks);
    assert sent + Batch(Joined(chunks), parse) == Batch(Joined(chunks), parse);
    while i < |chunks|
      invariant 0 <= i <= |chunks| && NEWLINE !in buf
      invariant Due(goal, sent, Batch(buf + Joined(chunks[i..]), parse), accepts)
    {
      if chunks[i].Err? {
        break;
      }
      ghost var later := Joined(chunks[i + 1..]);
      assert chunks[i..][1..] == chunks[i + 1..];
      Seqs.Assoc(buf, chunks[i].value, later);
      buf := buf + chunks[i].value;
      var ended: bool;
      buf, sent, ended := Drain(buf, sent, parse, accepts, later, goal);
      if ended {
        return;
      }
      i := i + 1;
    }
    assert Joined(chunks[i..]) == [] && buf + [] == buf;
    assert Lines(buf) == [];
    SendLast(goal, sent, Final(0), accepts);
    if |sent| < accepts {
      sent := sent + [Final(0)];
    }
  }
}
