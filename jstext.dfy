/** The JavaScript string and number built-ins that the formatter relies on:
    the decimal rendering of an integer (`Number.prototype.toString()` and the
    implicit conversion in `string + number`), `String.prototype.padStart` and
    `String.prototype.slice` with a negative start. */
module JsText {

  predicate IsDigit(c: char) {
    '0' <= c <= '9'
  }

  predicate AllDigits(s: string) {
    forall k :: 0 <= k < |s| ==> IsDigit(s[k])
  }

  function DigitValue(c: char): (d: nat)
    requires IsDigit(c)
    ensures d < 10
  {
    (c as int) - ('0' as int)
  }

  function DigitChar(d: nat): (c: char)
    requires d < 10
    ensures IsDigit(c) && DigitValue(c) == d
  {
    "0123456789"[d]
  }

  /** The number a string of decimal digits denotes, most significant digit first.
      This is the reference reading against which the renderings below are proved. */
  function DecimalValue(s: string): nat
    requires AllDigits(s)
  {
    if s == [] then 0 else DecimalValue(s[..|s| - 1]) * 10 + DigitValue(s[|s| - 1])
  }

  /** Decimal rendering of a non-negative integer. */
  function NatToString(n: nat): string
    decreases n
  {
    if n < 10 then [DigitChar(n)] else NatToString(n / 10) + [DigitChar(n % 10)]
  }

  /** The rendering is a non-empty string of digits, without leading zeros,
      that reads back as `n`; it has one digit exactly below 10. */
  lemma {:induction false} NatToStringValue(n: nat)
    ensures var s := NatToString(n);
      |s| >= 1 && AllDigits(s) && DecimalValue(s) == n &&
      (s[0] == '0' ==> n == 0) &&
      (n < 10 <==> |s| == 1) &&
      (n < 100 ==> |s| <= 2)
    decreases n
  {
    if n >= 10 {
      NatToStringValue(n / 10);
      var prefix := NatToString(n / 10);
      var s := NatToString(n);
      assert s == prefix + [DigitChar(n % 10)];
      assert s[..|s| - 1] == prefix;
    }
  }

  /** `n.toString()` for an integer `n`: a minus sign for negative numbers,
      then the decimal digits of the magnitude. */
  function IntToString(n: int): string {
    if n < 0 then "-" + NatToString(-n) else NatToString(n)
  }

  /** The rendering of `n` reads back as `n`: digits alone for `n >= 0`, a
      minus sign and the digits of `-n` otherwise. */
  lemma IntToStringValue(n: int)
    ensures |IntToString(n)| >= 1
    ensures n >= 0 ==> AllDigits(IntToString(n)) && DecimalValue(IntToString(n)) == n
    ensures n < 0 ==>
      IntToString(n)[0] == '-' && AllDigits(IntToString(n)[1..]) && DecimalValue(IntToString(n)[1..]) == -n
    ensures 0 <= n < 10 ==> |IntToString(n)| == 1
    ensures 10 <= n < 100 ==> |IntToString(n)| == 2
  {
    if n < 0 {
      NatToStringValue(-n);
      assert IntToString(n)[1..] == NatToString(-n);
    } else {
      NatToStringValue(n);
    }
  }

  /** `n` copies of `c`. */
  function Repeat(c: char, n: nat): (r: string)
    ensures |r| == n && forall k :: 0 <= k < n ==> r[k] == c
  {
    if n == 0 then "" else [c] + Repeat(c, n - 1)
  }

  /** `s.padStart(targetLength, fill)` with a one-character fill string. */
  function PadStart(s: string, targetLength: nat, fill: char): string {
    if |s| >= targetLength then s else Repeat(fill, targetLength - |s|) + s
  }

  /** A string already `targetLength` long comes back unchanged; a shorter one
      gets copies of `fill` in front up to exactly `targetLength`. */
  lemma PadStartShape(s: string, targetLength: nat, fill: char)
    ensures var r := PadStart(s, targetLength, fill);
      |r| == (if |s| >= targetLength then |s| else targetLength) &&
      r[|r| - |s|..] == s &&
      forall k :: 0 <= k < |r| - |s| ==> r[k] == fill
  {
  }

  /** `s.slice(-2)`. */
  function SliceLastTwo(s: string): string {
    if |s| < 2 then s else s[|s| - 2..]
  }

  /** `s.slice(-2)` is the suffix of `s` of length two, or all of `s` when it is shorter. */
  lemma SliceLastTwoShape(s: string)
    ensures var r := SliceLastTwo(s);
      |r| == (if |s| < 2 then |s| else 2) && s == s[..|s| - |r|] + r
  {
  }

  /** `n.toString().padStart(2, '0')`, the rendering of every padded numeric field. */
  function Pad2(n: int): string {
    PadStart(IntToString(n), 2, '0')
  }

  /** Every value in 0..99 pads to exactly its two decimal digits. */
  lemma TwoDigits(n: int)
    requires 0 <= n < 100
    ensures Pad2(n) == [DigitChar(n / 10), DigitChar(n % 10)]
    ensures AllDigits(Pad2(n)) && DecimalValue(Pad2(n)) == n
  {
    var s := IntToString(n);
    IntToStringValue(n);
    if n < 10 {
      assert s == [DigitChar(n)];
      assert Pad2(n) == ['0'] + s;
    } else {
      assert s == NatToString(n / 10) + [DigitChar(n % 10)];
      assert NatToString(n / 10) == [DigitChar(n / 10)];
    }
    var p := Pad2(n);
    assert p[..1] == [p[0]];
  }
}
