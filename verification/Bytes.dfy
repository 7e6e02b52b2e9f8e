/** Bytes and the fixed-width integer encodings of the wire formats. */
module Bytes {

  type byte = b: int | 0 <= b < 256

  const TWO_16 := 0x1_0000
  const TWO_31 := 0x8000_0000
  const TWO_32 := 0x1_0000_0000
  const TWO_63 := 0x8000_0000_0000_0000
  const TWO_64 := 0x1_0000_0000_0000_0000

  type u16 = n: int | 0 <= n < TWO_16
  type u32 = n: int | 0 <= n < TWO_32
  type u64 = n: int | 0 <= n < TWO_64
  type i32 = n: int | -TWO_31 <= n < TWO_31
  type i64 = n: int | -TWO_63 <= n < TWO_63

  function Pow256(w: nat): nat { if w == 0 then 1 else 256 * Pow256(w - 1) }

  lemma {:induction false} Pow256Add(m: nat, n: nat)
    ensures Pow256(m + n) == Pow256(m) * Pow256(n)
  {
    if m > 0 {
      Pow256Add(m - 1, n);
    }
  }

  /** Big-endian digits of `n` (taken modulo 256^w) in `w` bytes. */
  function BigEndian(n: nat, w: nat): (s: seq<byte>)
    ensures |s| == w
  {
    if w == 0 then [] else BigEndian(n / 256, w - 1) + [n % 256]
  }

  function FromBigEndian(s: seq<byte>): nat
  {
    if s == [] then 0 else FromBigEndian(s[..|s| - 1]) * 256 + s[|s| - 1]
  }

  lemma {:induction false} BigEndianRoundTrip(n: nat, w: nat)
    requires n < Pow256(w)
    ensures FromBigEndian(BigEndian(n, w)) == n
  {
    if w > 0 {
      BigEndianRoundTrip(n / 256, w - 1);
      var s := BigEndian(n, w);
      assert s[..w - 1] == BigEndian(n / 256, w - 1);
    }
  }

  lemma {:induction false} FromBigEndianBound(s: seq<byte>)
    ensures FromBigEndian(s) < Pow256(|s|)
  {
    if s != [] {
      FromBigEndianBound(s[..|s| - 1]);
    }
  }

  /** Bytes are the digits of the number they read as. */
  lemma {:induction false} BigEndianReads(s: seq<byte>)
    ensures BigEndian(FromBigEndian(s), |s|) == s
  {
    if s != [] {
      var init, last := s[..|s| - 1], s[|s| - 1];
      BigEndianReads(init);
      LastDigit(FromBigEndian(init), last);
      assert s == init + [last];
    }
  }

  lemma LastDigit(high: nat, low: byte)
    ensures (high * 256 + low) / 256 == high && (high * 256 + low) % 256 == low
  {
  }

  /** Two's complement: the bits of a signed value, and back. */
  function Bits64(n: i64): u64 {
    if n < 0 then n + TWO_64 else n
  }

  function Signed64(n: u64): i64 {
    if n >= TWO_63 then n - TWO_64 else n
  }

  function Bits32(n: i32): u32 {
    if n < 0 then n + TWO_32 else n
  }

  function Signed32(n: u32): i32 {
    if n >= TWO_31 then n - TWO_32 else n
  }

  lemma Pow256Values()
    ensures Pow256(2) == TWO_16 && Pow256(4) == TWO_32 && Pow256(8) == TWO_64
  {
    assert Pow256(3) == 0x100_0000;
    assert Pow256(4) == TWO_32;
    assert Pow256(6) == 0x1_0000_0000_0000;
    assert Pow256(8) == TWO_64;
  }

  function LittleEndian(n: nat, w: nat): (s: seq<byte>)
    ensures |s| == w
  {
    if w == 0 then [] else [n % 256] + LittleEndian(n / 256, w - 1)
  }

  function FromLittleEndian(s: seq<byte>): nat
  {
    if s == [] then 0 else s[0] + 256 * FromLittleEndian(s[1..])
  }

  lemma {:induction false} LittleEndianRoundTrip(n: nat, w: nat)
    requires n < Pow256(w)
    ensures FromLittleEndian(LittleEndian(n, w)) == n
  {
    if w > 0 {
      LittleEndianRoundTrip(n / 256, w - 1);
      assert LittleEndian(n, w)[1..] == LittleEndian(n / 256, w - 1);
    }
  }

  lemma {:induction false} FromLittleEndianBound(s: seq<byte>)
    ensures FromLittleEndian(s) < Pow256(|s|)
  {
    if s != [] {
      FromLittleEndianBound(s[1..]);
    }
  }

  // ------------------------------------------------------------- digits by position

  lemma DivIs(n: int, d: int, q: int, r: int)
    requires n == d * q + r && 0 <= r < d
    ensures n / d == q
  {
    var p := n / d;
    if p < q {
      Multiples(d, p + 1, q);
    } else if p > q {
      Multiples(d, q + 1, p);
    }
  }

  lemma Multiples(d: int, a: int, b: int)
    requires d > 0 && a <= b
    ensures d * a <= d * b
  {
  }

  lemma DivTwice(n: nat, a: nat, b: nat)
    requires a > 0 && b > 0
    ensures a * b > 0 && n / a / b == n / (a * b)
  {
    var m := n / a;
    var q, r := m / b, m % b;
    Multiples(a, 1, b);
    Multiples(a, r, b - 1);
    Regrouped(a, b, q, r, n % a);
    DivIs(n, a * b, q, a * r + n % a);
  }

  lemma Regrouped(a: int, b: int, q: int, r: int, s: int)
    ensures a * (b * q + r) + s == (a * b) * q + (a * r + s)
    ensures a * (b - 1) == a * b - a
  {
  }

  /** Each byte is a digit in base 256, the first the highest. */
  lemma {:induction false} BigEndianDigit(n: nat, w: nat, i: nat)
    requires i < w
    ensures Pow256(w - 1 - i) > 0 && BigEndian(n, w)[i] == n / Pow256(w - 1 - i) % 256
  {
    if i < w - 1 {
      BigEndianDigit(n / 256, w - 1, i);
      DivTwice(n, 256, Pow256(w - 2 - i));
    }
  }

  /** Each byte is a digit in base 256, the first the lowest. */
  lemma {:induction false} LittleEndianDigit(n: nat, w: nat, i: nat)
    requires i < w
    ensures Pow256(i) > 0 && LittleEndian(n, w)[i] == n / Pow256(i) % 256
  {
    if i > 0 {
      LittleEndianDigit(n / 256, w - 1, i - 1);
      var p := Pow256(i - 1);
      assert LittleEndian(n, w)[i] == LittleEndian(n / 256, w - 1)[i - 1] == n / 256 / p % 256;
      DivTwice(n, 256, p);
    }
  }
}
