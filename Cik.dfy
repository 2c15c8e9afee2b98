/**
  Zero-padding of CIK numbers: Python's `str.zfill(width)`, applied to the
  decimal text of a CIK to make the ten-digit form used in EDGAR URLs.
 */
module Cik {

  /** A run of `n` zeros. */
  function Zeros(n: nat): (z: string)
    ensures |z| == n
    ensures forall i :: 0 <= i < n ==> z[i] == '0'
  {
    if n == 0 then "" else "0" + Zeros(n - 1)
  }

  /**
    `s.zfill(width)`: left-pads with zeros to `width` characters, keeping a
    leading sign in front of the padding; text already that long is returned
    as it is.
   */
  function ZFill(s: string, width: int): (r: string)
    ensures |r| == if |s| >= width then |s| else width
    ensures |s| >= width ==> r == s
    ensures |s| < width && s != [] && (s[0] == '+' || s[0] == '-') ==>
      r == [s[0]] + Zeros(width - |s|) + s[1..]
  {
    if |s| >= width then s
    else if s != [] && (s[0] == '+' || s[0] == '-') then [s[0]] + Zeros(width - |s|) + s[1..]
    else Zeros(width - |s|) + s
  }

  predicate IsDigit(c: char) { '0' <= c <= '9' }

  predicate IsDigits(s: string) { forall i :: 0 <= i < |s| ==> IsDigit(s[i]) }

  function DigitVal(c: char): nat
    requires IsDigit(c)
  {
    (c - '0') as nat
  }

  function Pow10(n: nat): (p: nat)
    ensures p >= 1
  {
    if n == 0 then 1 else 10 * Pow10(n - 1)
  }

  /** The number a digit string denotes, most significant digit first. */
  function Value(s: string): nat
    requires IsDigits(s)
  {
    if s == [] then 0 else DigitVal(s[0]) * Pow10(|s| - 1) + Value(s[1..])
  }

  /**
    On a digit string, `zfill` only prepends zeros: the original text is a
    suffix of the result, the result is still all digits and it denotes the
    same number.
   */
  lemma ZFillDigits(s: string, width: int)
    requires IsDigits(s)
    ensures ZFill(s, width) == Zeros(|ZFill(s, width)| - |s|) + s
    ensures ZFill(s, width)[|ZFill(s, width)| - |s|..] == s
    ensures IsDigits(ZFill(s, width))
    ensures Value(ZFill(s, width)) == Value(s)
  {
    var r := ZFill(s, width);
    if |s| < width {
      assert s == [] || IsDigit(s[0]);
    }
    assert r == Zeros(|r| - |s|) + s;
    ZerosPrefixValue(|r| - |s|, s);
  }

  /** Leading zeros do not change the value of a digit string. */
  lemma {:induction false} ZerosPrefixValue(n: nat, s: string)
    requires IsDigits(s)
    ensures IsDigits(Zeros(n) + s)
    ensures Value(Zeros(n) + s) == Value(s)
  {
    if n > 0 {
      ZerosPrefixValue(n - 1, s);
      var t := Zeros(n - 1) + s;
      assert Zeros(n) + s == "0" + t;
      assert ("0" + t)[1..] == t;
      assert Value("0" + t) == DigitVal('0') * Pow10(|t|) + Value(t);
    } else {
      assert Zeros(n) + s == s;
    }
  }

  /** Padding twice to the same width is the same as padding once. */
  lemma ZFillIdempotent(s: string, width: int)
    ensures ZFill(ZFill(s, width), width) == ZFill(s, width)
  {
  }

  /** Alphabet's CIK, 1652044, becomes the ten-digit form used in the EDGAR URL, which `zfill` then leaves alone. */
  lemma AlphabetCik()
    ensures ZFill("1652044", 10) == "0001652044"
    ensures ZFill("0001652044", 10) == "0001652044"
  {
    assert Zeros(3) == "000";
  }
}
