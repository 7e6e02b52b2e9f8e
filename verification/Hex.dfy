/** Hexadecimal digits in either letter case, and numbers printed with them. */
module Hex {
  import opened Bytes
  import opened Wrappers

  function DigitValue(c: int): (r: Option<nat>)
    ensures r.Some? ==> r.value < 16
  {
    if 48 <= c <= 57 then Some(c - 48)
    else if 65 <= c <= 70 then Some(c - 55)
    else if 97 <= c <= 102 then Some(c - 87)
    else None
  }

  function Digit(d: nat, upper: bool): byte
    requires d < 16
  {
    if d < 10 then '0' as int + d else (if upper then 'A' else 'a') as int + (d - 10)
  }

  lemma DigitTable(d: nat)
    requires d < 16
    ensures Digit(d, false) == "0123456789abcdef"[d] as int && Digit(d, true) == "0123456789ABCDEF"[d] as int
  {
  }

  lemma DigitReads(d: nat, upper: bool)
    requires d < 16
    ensures DigitValue(Digit(d, upper)) == Some(d)
  {
  }

  /** Every character with a value is one of the two digits of that value. */
  lemma DigitWritten(c: int) returns (upper: bool)
    requires DigitValue(c).Some?
    ensures Digit(DigitValue(c).value, upper) == c
  {
    upper := 65 <= c <= 70;
  }

  function Pow16(w: nat): nat {
    if w == 0 then 1 else 16 * Pow16(w - 1)
  }

  /** The last digits of `n`, one for each entry of `upper`, which gives its letter case. */
  function Printed(n: nat, upper: seq<bool>): (s: seq<byte>)
    ensures |s| == |upper|
  {
    if upper == [] then []
    else Printed(n / 16, upper[..|upper| - 1]) + [Digit(n % 16, upper[|upper| - 1])]
  }
}
