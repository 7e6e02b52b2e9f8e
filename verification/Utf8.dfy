/** UTF-8 (RFC 3629, section 4): well-formed bytes and the code points they stand for. */
module Utf8 {
  import opened Wrappers
  import opened Bytes

  predicate Continues(b: byte) {
    0x80 <= b <= 0xBF
  }

  /** The length of the well-formed sequence at the head of `s`, or 0. */
  function HeadLength(s: seq<byte>): (n: nat)
    ensures n <= |s|
  {
    if s == [] then 0
    else if s[0] < 0x80 then 1
    else if 0xC2 <= s[0] <= 0xDF then
      if |s| >= 2 && Continues(s[1]) then 2 else 0
    else if 0xE0 <= s[0] <= 0xEF then
      if |s| >= 3 && Continues(s[1]) && Continues(s[2])
        && (s[0] == 0xE0 ==> s[1] >= 0xA0) && (s[0] == 0xED ==> s[1] <= 0x9F) then 3 else 0
    else if 0xF0 <= s[0] <= 0xF4 then
      if |s| >= 4 && Continues(s[1]) && Continues(s[2]) && Continues(s[3])
        && (s[0] == 0xF0 ==> s[1] >= 0x90) && (s[0] == 0xF4 ==> s[1] <= 0x8F) then 4 else 0
    else 0
  }

  /** The code point of the well-formed sequence at the head of `s`. */
  function Head(s: seq<byte>): int
    requires HeadLength(s) > 0
  {
    var at := (i: int) requires 0 <= i < |s| => s[i] as int;
    match HeadLength(s)
    case 1 => at(0)
    case 2 => (at(0) - 0xC0) * 0x40 + at(1) - 0x80
    case 3 => (at(0) - 0xE0) * 0x1000 + (at(1) - 0x80) * 0x40 + at(2) - 0x80
    case _ => (at(0) - 0xF0) * 0x4_0000 + (at(1) - 0x80) * 0x1000 + (at(2) - 0x80) * 0x40 + at(3) - 0x80
  }

  /** The text, or None where the bytes are not well-formed. */
  function Decode(s: seq<byte>): Option<seq<int>> {
    if s == [] then Some([])
    else if HeadLength(s) == 0 then None
    else
      match Decode(s[HeadLength(s)..])
      case None => None
      case Some(rest) => Some([Head(s)] + rest)
  }

  predicate WellFormed(s: seq<byte>) {
    Decode(s).Some?
  }

  /** A Unicode scalar value: any code point but the surrogates. */
  predicate Scalar(c: int) {
    0 <= c < 0xD800 || 0xE000 <= c <= 0x10_FFFF
  }

  /** Section 3 of RFC 3629: six bits to a byte behind the first, which tells how many there are. */
  function EncodeChar(c: int): (s: seq<byte>)
    requires Scalar(c)
    ensures s != []
  {
    if c < 0x80 then [c]
    else if c < 0x800 then [0xC0 + c / 0x40, 0x80 + c % 0x40]
    else if c < 0x1_0000 then [0xE0 + c / 0x1000, 0x80 + c / 0x40 % 0x40, 0x80 + c % 0x40]
    else [0xF0 + c / 0x4_0000, 0x80 + c / 0x1000 % 0x40, 0x80 + c / 0x40 % 0x40, 0x80 + c % 0x40]
  }

  predicate Scalars(text: seq<int>) {
    forall i :: 0 <= i < |text| ==> Scalar(text[i])
  }

  function EncodeText(text: seq<int>): seq<byte>
    requires Scalars(text)
  {
    if text == [] then [] else EncodeChar(text[0]) + EncodeText(text[1..])
  }

  lemma Sextets(a: int, b: int, c: int)
    requires 0 <= b < 0x40 && 0 <= c < 0x40
    ensures var n := a * 0x1000 + b * 0x40 + c;
      n / 0x1000 == a && n / 0x40 == a * 0x40 + b && n / 0x40 % 0x40 == b && n % 0x40 == c
  {
  }

  lemma FourSextets(a: int, b: int, c: int, d: int)
    requires 0 <= b < 0x40 && 0 <= c < 0x40 && 0 <= d < 0x40
    ensures var n := a * 0x4_0000 + b * 0x1000 + c * 0x40 + d;
      n / 0x4_0000 == a && n / 0x1000 % 0x40 == b && n / 0x40 % 0x40 == c && n % 0x40 == d
  {
    Sextets(a * 0x40 + b, c, d);
  }

  lemma HeadEncodes(s: seq<byte>)
    requires HeadLength(s) > 0
    ensures Scalar(Head(s)) && EncodeChar(Head(s)) == s[..HeadLength(s)]
  {
    if HeadLength(s) <= 2 {
      ShortHead(s);
    } else if HeadLength(s) == 3 {
      ThreeEncode(s[0], s[1], s[2]);
      assert s[..3] == [s[0], s[1], s[2]];
    } else {
      FourEncode(s[0], s[1], s[2], s[3]);
      assert s[..4] == [s[0], s[1], s[2], s[3]];
    }
  }

  lemma ShortHead(s: seq<byte>)
    requires 1 <= HeadLength(s) <= 2
    ensures Scalar(Head(s)) && EncodeChar(Head(s)) == s[..HeadLength(s)]
  {
    if HeadLength(s) == 1 {
      assert s[..1] == [s[0]];
    } else {
      TwoEncode(s[0], s[1]);
      assert s[..2] == [s[0], s[1]];
    }
  }

  lemma TwoEncode(a: byte, b: byte)
    requires 0xC2 <= a <= 0xDF && Continues(b)
    ensures var c := (a - 0xC0) * 0x40 + b - 0x80; Scalar(c) && EncodeChar(c) == [a, b]
  {
  }

  lemma ThreeEncode(a: byte, b: byte, d: byte)
    requires 0xE0 <= a <= 0xEF && Continues(b) && Continues(d) && (a == 0xE0 ==> b >= 0xA0) && (a == 0xED ==> b <= 0x9F)
    ensures var c := (a - 0xE0) * 0x1000 + (b - 0x80) * 0x40 + d - 0x80; Scalar(c) && EncodeChar(c) == [a, b, d]
  {
    Sextets(a - 0xE0, b - 0x80, d - 0x80);
  }

  lemma FourEncode(a: byte, b: byte, d: byte, e: byte)
    requires 0xF0 <= a <= 0xF4 && Continues(b) && Continues(d) && Continues(e)
    requires (a == 0xF0 ==> b >= 0x90) && (a == 0xF4 ==> b <= 0x8F)
    ensures var c := (a - 0xF0) * 0x4_0000 + (b - 0x80) * 0x1000 + (d - 0x80) * 0x40 + e - 0x80;
      Scalar(c) && EncodeChar(c) == [a, b, d, e]
  {
    FourSextets(a - 0xF0, b - 0x80, d - 0x80, e - 0x80);
  }

  /** What makes the head of `s` a well-formed sequence looks at its first bytes only. */
  lemma HeadOf(a: seq<byte>, rest: seq<byte>)
    requires a != [] && HeadLength(a) == |a|
    ensures HeadLength(a + rest) == |a| && Head(a + rest) == Head(a) && (a + rest)[|a|..] == rest
  {
    var s := a + rest;
    assert forall i :: 0 <= i < |a| ==> s[i] == a[i];
  }

  lemma EncodedReads(c: int)
    requires Scalar(c)
    ensures HeadLength(EncodeChar(c)) == |EncodeChar(c)| && Head(EncodeChar(c)) == c
  {
    if c >= 0x1_0000 {
      FourRead(c);
    } else if c >= 0x800 {
      SplitThree(c);
    }
  }

  lemma FourRead(c: int)
    requires Scalar(c) && c >= 0x1_0000
    ensures HeadLength(EncodeChar(c)) == |EncodeChar(c)| && Head(EncodeChar(c)) == c
  {
    SplitFour(c);
  }

  lemma SplitThree(c: int)
    ensures c == c / 0x1000 * 0x1000 + c / 0x40 % 0x40 * 0x40 + c % 0x40
  {
    assert c / 0x40 / 0x40 == c / 0x1000;
  }

  lemma SplitFour(c: int)
    ensures c == c / 0x4_0000 * 0x4_0000 + c / 0x1000 % 0x40 * 0x1000 + c / 0x40 % 0x40 * 0x40 + c % 0x40
  {
    SplitThree(c);
    assert c / 0x1000 / 0x40 == c / 0x4_0000;
  }

  lemma {:induction false} DecodeEncodes(s: seq<byte>)
    requires Decode(s).Some?
    ensures Scalars(Decode(s).value) && EncodeText(Decode(s).value) == s
    decreases |s|
  {
    if s != [] {
      var n := HeadLength(s);
      HeadEncodes(s);
      DecodeEncodes(s[n..]);
      EncodeStep(Head(s), Decode(s[n..]).value);
      Halves(s, n);
    }
  }

  lemma Halves(s: seq<byte>, n: nat)
    requires n <= |s|
    ensures s[..n] + s[n..] == s
  {
  }

  lemma EncodeStep(c: int, rest: seq<int>)
    requires Scalar(c) && Scalars(rest)
    ensures Scalars([c] + rest) && EncodeText([c] + rest) == EncodeChar(c) + EncodeText(rest)
  {
    assert ([c] + rest)[1..] == rest;
  }

  lemma {:induction false} EncodeDecodes(text: seq<int>)
    requires Scalars(text)
    ensures Decode(EncodeText(text)) == Some(text)
  {
    if text != [] {
      EncodeDecodes(text[1..]);
      EncodedReads(text[0]);
      HeadOf(EncodeChar(text[0]), EncodeText(text[1..]));
      assert [text[0]] + text[1..] == text;
    }
  }

  /** Bytes are a text if and only if they are its scalar values encoded one after the other. */
  lemma DecodeExactly(s: seq<byte>, text: seq<int>)
    ensures Decode(s) == Some(text) <==> Scalars(text) && s == EncodeText(text)
  {
    if Decode(s) == Some(text) {
      DecodeEncodes(s);
    }
    if Scalars(text) && s == EncodeText(text) {
      EncodeDecodes(text);
    }
  }

  predicate Ascii(s: seq<byte>) {
    forall i :: 0 <= i < |s| ==> s[i] < 0x80
  }

  /** ASCII bytes stand for themselves and do not affect what follows. */
  lemma {:induction false} DecodeAsciiPrefix(a: seq<byte>, b: seq<byte>)
    requires Ascii(a)
    ensures Decode(a + b) == if WellFormed(b) then Some(a + Decode(b).value) else None
  {
    if a == [] {
      assert a + b == b;
      assert WellFormed(b) ==> a + Decode(b).value == Decode(b).value;
    } else {
      assert (a + b)[0] == a[0] && (a + b)[1..] == a[1..] + b;
      DecodeAsciiPrefix(a[1..], b);
      assert HeadLength(a + b) == 1;
      if WellFormed(b) {
        var t := Decode(b).value;
        assert [a[0]] + (a[1..] + t) == a + t;
      }
    }
  }

  /** Unless the head is well-formed, the length of the longest part of it that could begin a
      well-formed sequence, and at least one byte. */
  function BadLength(s: seq<byte>): (n: nat)
    requires s != [] && HeadLength(s) == 0
    ensures 1 <= n <= |s|
  {
    if |s| >= 2 && Continues(s[1]) && (
        (0xE0 <= s[0] <= 0xEF && (s[0] == 0xE0 ==> s[1] >= 0xA0) && (s[0] == 0xED ==> s[1] <= 0x9F))
        || (0xF0 <= s[0] <= 0xF4 && (s[0] == 0xF0 ==> s[1] >= 0x90) && (s[0] == 0xF4 ==> s[1] <= 0x8F)))
    then if s[0] >= 0xF0 && |s| >= 3 && Continues(s[2]) then 3 else 2
    else 1
  }

  /** `a` begins some well-formed sequence. */
  ghost predicate Completable(a: seq<byte>) {
    exists t :: HeadLength(a + t) >= |a|
  }

  lemma CompletedBy(a: seq<byte>, t: seq<byte>)
    requires HeadLength(a + t) >= |a|
    ensures Completable(a)
  {
  }

  /** The ill-formed part is as long as it can be while it could still begin a well-formed sequence. */
  lemma BadLengthMaximal(s: seq<byte>, m: nat)
    requires s != [] && HeadLength(s) == 0
    ensures BadLength(s) > 1 ==> Completable(s[..BadLength(s)])
    ensures BadLength(s) < m <= |s| ==> !Completable(s[..m])
  {
    var n := BadLength(s);
    if n > 1 {
      var a := s[..n];
      var t: seq<byte> := [0x80, 0x80];
      assert (a + t)[0] == s[0] && (a + t)[1] == s[1] && (n == 3 ==> (a + t)[2] == s[2]);
      CompletedBy(a, t);
    }
    if n < m <= |s| {
      forall t ensures HeadLength(s[..m] + t) < m {
        Uncompletable(s, m, t);
      }
    }
  }

  lemma Uncompletable(s: seq<byte>, m: nat, t: seq<byte>)
    requires s != [] && HeadLength(s) == 0 && BadLength(s) < m <= |s|
    ensures HeadLength(s[..m] + t) < m
  {
    var u := s[..m] + t;
    assert forall i :: 0 <= i < m ==> u[i] == s[i];
  }

  /** U+FFFD in UTF-8. */
  const REPLACEMENT: seq<byte> := [0xEF, 0xBF, 0xBD]

  lemma ReplacementEncodes()
    ensures REPLACEMENT == EncodeChar(0xFFFD)
  {
  }

  /** Every ill-formed part becomes one replacement character. */
  function Lossy(s: seq<byte>): seq<byte>
    decreases |s|
  {
    if s == [] then []
    else if HeadLength(s) > 0 then s[..HeadLength(s)] + Lossy(s[HeadLength(s)..])
    else REPLACEMENT + Lossy(s[BadLength(s)..])
  }

  lemma HeadThen(s: seq<byte>, t: seq<byte>)
    requires HeadLength(s) > 0 && WellFormed(t)
    ensures WellFormed(s[..HeadLength(s)] + t)
  {
    var n := HeadLength(s);
    var u := s[..n] + t;
    assert forall i :: 0 <= i < n ==> u[i] == s[i];
    assert HeadLength(u) == n;
    assert u[n..] == t;
  }

  /** The repair always yields text, and changes nothing if and only if there was text already. */
  lemma {:induction false} LossyRepairs(s: seq<byte>)
    ensures WellFormed(Lossy(s))
    ensures Lossy(s) == s <==> WellFormed(s)
    decreases |s|
  {
    if s != [] {
      var n := HeadLength(s);
      if n > 0 {
        LossyRepairs(s[n..]);
        HeadThen(s, Lossy(s[n..]));
        assert s == s[..n] + s[n..];
      } else {
        LossyRepairs(s[BadLength(s)..]);
        HeadThen(REPLACEMENT, Lossy(s[BadLength(s)..]));
        assert REPLACEMENT[..3] == REPLACEMENT;
      }
    }
  }

  lemma HeadLengthLocal(a: seq<byte>, c: byte, b: seq<byte>)
    requires a != [] && c < 0x80
    ensures HeadLength(a + ([c] + b)) == HeadLength(a)
  {
    var s := a + ([c] + b);
    assert forall i :: 0 <= i < |a| ==> s[i] == a[i];
    assert s[|a|] == c;
  }

  /** An ASCII byte separates: both sides must be well-formed, and nothing crosses it. */
  lemma {:induction false} Separates(a: seq<byte>, c: byte, b: seq<byte>)
    requires c < 0x80
    ensures WellFormed(a + ([c] + b)) <==> WellFormed(a) && WellFormed(b)
    decreases |a|
  {
    var s := a + ([c] + b);
    if a == [] {
      assert s == [c] + b && s[1..] == b;
      assert HeadLength(s) == 1;
    } else {
      HeadLengthLocal(a, c, b);
      var n := HeadLength(a);
      if n > 0 {
        assert s[n..] == a[n..] + ([c] + b);
        Separates(a[n..], c, b);
      }
    }
  }

  lemma HeadLengthCut(s: seq<byte>, k: nat)
    requires k <= |s| && HeadLength(s) > 0
    ensures k >= HeadLength(s) ==> HeadLength(s[..k]) == HeadLength(s)
    ensures 0 < k < HeadLength(s) ==> HeadLength(s[..k]) == 0 && Continues(s[k])
    ensures !Continues(s[0])
  {
    var t := s[..k];
    assert forall i :: 0 <= i < k ==> t[i] == s[i];
  }

  /** A text cut short is still text if and only if the cut is between two characters: the next
      byte does not continue one. */
  lemma {:induction false} CutExactly(s: seq<byte>, k: nat)
    requires WellFormed(s) && k <= |s|
    ensures WellFormed(s[..k]) <==> k == |s| || !Continues(s[k])
    decreases |s|
  {
    if k == 0 {
      assert s[..k] == [];
      if s != [] {
        HeadLengthCut(s, 0);
      }
    } else {
      var n := HeadLength(s);
      HeadLengthCut(s, k);
      if k >= n {
        assert s[..k][n..] == s[n..][..k - n];
        CutExactly(s[n..], k - n);
      }
    }
  }
}
