/** UUID texts (RFC 9562, section 4): the forms that are read and the one that is written. */
module Uuid {
  import opened Bytes
  import opened Hex
  import opened Wrappers
  import Seqs

  const HYPHEN: byte := 45

  function ToHex(b: seq<byte>): (s: seq<byte>)
    ensures |s| == 2 * |b|
  {
    if b == [] then [] else [Digit(b[0] / 16, false), Digit(b[0] % 16, false)] + ToHex(b[1..])
  }

  function Unhex(s: seq<byte>): (r: Option<seq<byte>>)
    ensures r.Some? ==> 2 * |r.value| == |s|
  {
    if s == [] then Some([])
    else if |s| == 1 then None
    else
      match (DigitValue(s[0]), DigitValue(s[1]), Unhex(s[2..]))
      case (Some(h), Some(l), Some(t)) => Some([16 * h + l] + t)
      case _ => None
  }

  predicate LowerCase(s: seq<byte>) {
    forall i :: 0 <= i < |s| ==> !(65 <= s[i] <= 70)
  }

  /** Groups of 8, 4, 4, 4 and 12 digits. */
  function Hyphenate(h: seq<byte>): (s: seq<byte>)
    requires |h| == 32
    ensures |s| == 36
  {
    h[..8] + [HYPHEN] + h[8..12] + [HYPHEN] + h[12..16] + [HYPHEN] + h[16..20] + [HYPHEN] + h[20..]
  }

  predicate Hyphenated(s: seq<byte>) {
    |s| == 36 && s[8] == HYPHEN && s[13] == HYPHEN && s[18] == HYPHEN && s[23] == HYPHEN
  }

  function Digits(s: seq<byte>): (h: seq<byte>)
    requires |s| == 36
    ensures |h| == 32
  {
    s[..8] + s[9..13] + s[14..18] + s[19..23] + s[24..]
  }

  function ParseHyphenated(s: seq<byte>): Option<seq<byte>> {
    if Hyphenated(s) then Unhex(Digits(s)) else None
  }

  /** Plain, hyphenated, braced and URN forms, in any letter case. */
  function Parse(s: seq<byte>): (r: Option<seq<byte>>)
    ensures r.Some? ==> |r.value| == 16
  {
    if |s| == 32 then Unhex(s)
    else if |s| == 36 then ParseHyphenated(s)
    else if |s| == 38 && s[0] == 123 && s[37] == 125 then ParseHyphenated(s[1..37])
    else if |s| == 45 && s[..9] == [117, 114, 110, 58, 117, 117, 105, 100, 58] then ParseHyphenated(s[9..])
    else None
  }

  /** The form that is written: hyphenated, lowercase. */
  function Text(id: seq<byte>): (s: seq<byte>)
    requires |id| == 16
    ensures |s| == 36
  {
    Hyphenate(ToHex(id))
  }

  lemma {:induction false} UnhexHex(b: seq<byte>)
    ensures Unhex(ToHex(b)) == Some(b) && LowerCase(ToHex(b))
  {
    if b != [] {
      UnhexHex(b[1..]);
      var s := ToHex(b);
      assert s[2..] == ToHex(b[1..]);
      assert s[0] == Digit(b[0] / 16, false) && s[1] == Digit(b[0] % 16, false);
      assert 16 * (b[0] / 16) + b[0] % 16 == b[0] && [b[0]] + b[1..] == b;
      forall i | 0 <= i < |s| ensures !(65 <= s[i] <= 70) {
        if i >= 2 {
          assert s[i] == ToHex(b[1..])[i - 2];
        }
      }
    }
  }

  lemma Nibbles(h: nat, l: nat)
    requires h < 16 && l < 16
    ensures (16 * h + l) / 16 == h && (16 * h + l) % 16 == l
  {
  }

  lemma LowerDigit(c: byte)
    requires DigitValue(c).Some? && !(65 <= c <= 70)
    ensures Digit(DigitValue(c).value, false) == c
  {
  }

  lemma {:induction false} HexUnhex(s: seq<byte>)
    requires Unhex(s).Some? && LowerCase(s)
    ensures ToHex(Unhex(s).value) == s
  {
    if s != [] {
      HexUnhex(s[2..]);
      var h, l, t := DigitValue(s[0]).value, DigitValue(s[1]).value, Unhex(s[2..]).value;
      var b: byte := 16 * h + l;
      assert Unhex(s).value == [b] + t && ([b] + t)[1..] == t;
      Nibbles(h, l);
      LowerDigit(s[0]);
      LowerDigit(s[1]);
      assert s == [s[0], s[1]] + s[2..];
    }
  }

  lemma DigitsOfHyphenate(h: seq<byte>)
    requires |h| == 32
    ensures Hyphenated(Hyphenate(h)) && Digits(Hyphenate(h)) == h
  {
    var s := Hyphenate(h);
    assert s[..8] == h[..8];
    assert s[9..13] == h[8..12];
    assert s[14..18] == h[12..16];
    assert s[19..23] == h[16..20];
    assert s[24..] == h[20..];
  }

  lemma HyphenateDigits(s: seq<byte>)
    requires Hyphenated(s)
    ensures Hyphenate(Digits(s)) == s
    ensures LowerCase(s) <==> LowerCase(Digits(s))
  {
    var h := Digits(s);
    assert h[..8] == s[..8];
    assert h[8..12] == s[9..13];
    assert h[12..16] == s[14..18];
    assert h[16..20] == s[19..23];
    assert h[20..] == s[24..];
    if LowerCase(h) {
      forall i | 0 <= i < |s| ensures !(65 <= s[i] <= 70) {
        if i < 8 { assert s[i] == h[i]; }
        else if 9 <= i < 13 { assert s[i] == h[i - 1]; }
        else if 14 <= i < 18 { assert s[i] == h[i - 2]; }
        else if 19 <= i < 23 { assert s[i] == h[i - 3]; }
        else if 24 <= i { assert s[i] == h[i - 4]; }
      }
    }
    if LowerCase(s) {
      forall i | 0 <= i < |h| ensures !(65 <= h[i] <= 70) {
        DigitAt(s, i);
      }
    }
  }

  /** The digit at position `i` stands behind as many hyphens as there are before it. */
  lemma DigitAt(s: seq<byte>, i: nat)
    requires |s| == 36 && i < 32
    ensures Digits(s)[i] == s[i + if i < 8 then 0 else if i < 12 then 1 else if i < 16 then 2 else if i < 20 then 3 else 4]
  {
  }

  lemma {:induction false} ToHexLast(b: seq<byte>, x: byte)
    ensures ToHex(b + [x]) == ToHex(b) + [Digit(x / 16, false), Digit(x % 16, false)]
  {
    if b == [] {
      assert ToHex([x][1..]) == [] && [] + [x] == [x];
    } else {
      ToHexLast(b[1..], x);
      assert (b + [x])[1..] == b[1..] + [x];
      Seqs.Assoc([Digit(b[0] / 16, false), Digit(b[0] % 16, false)], ToHex(b[1..]),
                 [Digit(x / 16, false), Digit(x % 16, false)]);
    }
  }

  function Lower(n: nat): seq<bool> {
    seq(n, _ => false)
  }

  lemma TwoDigits(high: nat, x: byte)
    ensures (high * 256 + x) % 16 == x % 16
    ensures (high * 256 + x) / 16 == high * 16 + x / 16
    ensures (high * 16 + x / 16) % 16 == x / 16 && (high * 16 + x / 16) / 16 == high
  {
  }

  /** The digits of bytes are those of the number they stand for, the first byte the highest. */
  lemma {:induction false} HexOfNumber(b: seq<byte>)
    ensures ToHex(b) == Printed(FromBigEndian(b), Lower(2 * |b|))
    decreases |b|
  {
    if b != [] {
      var init, x := b[..|b| - 1], b[|b| - 1];
      HexOfNumber(init);
      assert b == init + [x];
      ToHexLast(init, x);
      TwoDigits(FromBigEndian(init), x);
      PrintedTwice(FromBigEndian(init), x, |init|);
    }
  }

  lemma PrintedTwice(high: nat, x: byte, n: nat)
    ensures Printed(high * 256 + x, Lower(2 * n + 2))
      == Printed(high, Lower(2 * n)) + [Digit(x / 16, false), Digit(x % 16, false)]
  {
    TwoDigits(high, x);
    var u, v, w := Lower(2 * n + 2), Lower(2 * n + 1), Lower(2 * n);
    assert u[..|u| - 1] == v && v[..|v| - 1] == w;
    assert Printed(high * 256 + x, u) == Printed(high * 16 + x / 16, v) + [Digit(x % 16, false)];
    assert Printed(high * 16 + x / 16, v) == Printed(high, w) + [Digit(x / 16, false)];
  }

  /** The written form is the 128-bit number in lower-case digits, hyphenated. */
  lemma TextOfNumber(id: seq<byte>)
    requires |id| == 16
    ensures Hyphenated(Text(id)) && Digits(Text(id)) == Printed(FromBigEndian(id), Lower(32))
  {
    HexOfNumber(id);
    DigitsOfHyphenate(ToHex(id));
  }

  const URN: seq<byte> :=
    ['u' as int, 'r' as int, 'n' as int, ':' as int, 'u' as int, 'u' as int, 'i' as int, 'd' as int, ':' as int]

  /** The forms in which 32 digits may be written: plain, hyphenated, braced, or as a URN. */
  predicate FormOf(s: seq<byte>, h: seq<byte>)
    requires |h| == 32
  {
    || s == h || s == Hyphenate(h)
    || s == ['{' as int] + Hyphenate(h) + ['}' as int]
    || s == URN + Hyphenate(h)
  }

  ghost predicate FormOfId(s: seq<byte>, id: seq<byte>) {
    exists h: seq<byte> :: |h| == 32 && Unhex(h) == Some(id) && FormOf(s, h)
  }

  lemma HyphenatedReads(s: seq<byte>, h: seq<byte>)
    requires |h| == 32 && s == Hyphenate(h)
    ensures ParseHyphenated(s) == Unhex(h)
  {
    DigitsOfHyphenate(h);
  }

  lemma HyphenatedDigits(s: seq<byte>, id: seq<byte>)
    requires ParseHyphenated(s) == Some(id)
    ensures s == Hyphenate(Digits(s)) && Unhex(Digits(s)) == Some(id)
  {
    HyphenateDigits(s);
  }

  /** A text reads as an id if and only if it is one of the four forms of digits that spell the id. */
  lemma ParseExactly(s: seq<byte>, id: seq<byte>)
    ensures Parse(s) == Some(id) <==> FormOfId(s, id)
  {
    if FormOfId(s, id) {
      var h: seq<byte> :| |h| == 32 && Unhex(h) == Some(id) && FormOf(s, h);
      FormReads(s, h);
    }
    if Parse(s) == Some(id) {
      var h := DigitsIn(s, id);
    }
  }

  lemma FormReads(s: seq<byte>, h: seq<byte>)
    requires |h| == 32 && FormOf(s, h)
    ensures Parse(s) == Unhex(h)
  {
    HyphenatedReads(Hyphenate(h), h);
    var x := Hyphenate(h);
    if |s| == 38 {
      assert s[0] == '{' as int && s[37] == '}' as int && s[1..37] == x;
    } else if |s| == 45 {
      assert s[..9] == URN && s[9..] == x;
    }
  }

  lemma Braced(s: seq<byte>)
    requires |s| == 38 && s[0] == '{' as int && s[37] == '}' as int
    ensures s == ['{' as int] + s[1..37] + ['}' as int]
  {
  }

  lemma Prefixed(s: seq<byte>)
    requires |s| >= 9 && s[..9] == URN
    ensures s == URN + s[9..]
  {
  }

  lemma DigitsIn(s: seq<byte>, id: seq<byte>) returns (h: seq<byte>)
    requires Parse(s) == Some(id)
    ensures |h| == 32 && Unhex(h) == Some(id) && FormOf(s, h)
  {
    if |s| == 32 {
      h := s;
    } else {
      var x := if |s| == 36 then s else if |s| == 38 then s[1..37] else s[9..];
      HyphenatedDigits(x, id);
      h := Digits(x);
      if |s| == 38 {
        Braced(s);
      } else if |s| == 45 {
        Prefixed(s);
      }
    }
  }

  /** What is written reads back. */
  lemma TextRoundTrip(id: seq<byte>)
    requires |id| == 16
    ensures Parse(Text(id)) == Some(id)
  {
    UnhexHex(id);
    DigitsOfHyphenate(ToHex(id));
  }

  /** A text that reads as `id` is the written form if and only if it is hyphenated, without
      wrapper, and has no upper-case digit. */
  lemma CanonicalExactly(s: seq<byte>, id: seq<byte>)
    requires Parse(s) == Some(id)
    ensures s == Text(id) <==> |s| == 36 && LowerCase(s)
  {
    if |s| == 36 {
      HyphenateDigits(s);
      if LowerCase(s) {
        HexUnhex(Digits(s));
      }
      UnhexHex(id);
      DigitsOfHyphenate(ToHex(id));
      HyphenateDigits(Text(id));
    }
  }
}
