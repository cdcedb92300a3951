/** Decimal rendering (`%d`, `%02d`, `strftime('%s')`) and parsing
    (`String#to_i` on a string of digits) of natural numbers. */
module Numerals {
  import opened Bytes

  function DigitByte(d: nat): (b: byte)
    requires d < 10
    ensures IsDigit(b)
  {
    48 + d
  }

  /** `"%d" % n`: the digits of `n`, most significant first, no leading zero. */
  function Decimal(n: nat): (r: Bytes)
    ensures 1 <= |r| && AllDigits(r)
    ensures |r| > 1 ==> r[0] != 48
    ensures n < 10 <==> |r| == 1
  {
    if n < 10 then [DigitByte(n)] else Decimal(n / 10) + [DigitByte(n % 10)]
  }

  /** `to_i` of a string of decimal digits. */
  function Value(s: Bytes): nat
    requires AllDigits(s)
  {
    if |s| == 0 then 0 else 10 * Value(s[..|s| - 1]) + (s[|s| - 1] - 48)
  }

  /** `"%02d" % n`: at least two digits, padded with a leading zero. */
  function Pad2(n: nat): (r: Bytes)
    ensures AllDigits(r)
    ensures n < 100 ==> |r| == 2
    ensures |r| >= 2
  {
    if n < 10 then [48] + Decimal(n) else Decimal(n)
  }

  /** Parsing the rendering of `n` gives back `n`. */
  lemma {:induction false} ValueOfDecimal(n: nat)
    ensures Value(Decimal(n)) == n
  {
    if n >= 10 {
      var s := Decimal(n);
      assert s[..|s| - 1] == Decimal(n / 10);
      ValueOfDecimal(n / 10);
    }
  }

  /** The padded rendering also parses back to `n`. */
  lemma ValueOfPad2(n: nat)
    ensures Value(Pad2(n)) == n
  {
    ValueOfDecimal(n);
    if n < 10 {
      var s := Pad2(n);
      assert s[..|s| - 1] == [48];
      assert Value([48]) == 10 * Value([]) + 0;
    }
  }

  /** Distinct numbers render differently. */
  lemma DecimalInjective(m: nat, n: nat)
    requires Decimal(m) == Decimal(n)
    ensures m == n
  {
    ValueOfDecimal(m);
    ValueOfDecimal(n);
  }
}
