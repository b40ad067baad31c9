/**
 * Decimal rendering of natural numbers the way the display code produces it:
 * `String(n)` for a non-negative integer, `padStart(width, '0')`, and the
 * two-digit `pad` helper. `ParseDecimal` reads a digit string back and is the
 * partner every rendering is checked against.
 */
module Decimal {

  predicate IsDigit(c: char) { '0' <= c <= '9' }

  predicate AllDigits(s: string) { forall i :: 0 <= i < |s| ==> IsDigit(s[i]) }

  function DigitValue(c: char): nat
    requires IsDigit(c)
  {
    c as int - '0' as int
  }

  function DigitChar(d: nat): (c: char)
    requires d < 10
    ensures IsDigit(c) && DigitValue(c) == d
  {
    ('0' as int + d) as char
  }

  /** Value of a string of decimal digits; leading zeros are allowed. */
  function ParseDecimal(s: string): nat
    requires AllDigits(s)
  {
    if s == [] then 0 else ParseDecimal(s[..|s| - 1]) * 10 + DigitValue(s[|s| - 1])
  }

  function Pow10(k: nat): nat
  {
    if k == 0 then 1 else 10 * Pow10(k - 1)
  }

  /** `String(n)`: the shortest decimal representation, without leading zeros. */
  function NatToString(n: nat): (s: string)
    ensures 1 <= |s| && AllDigits(s)
    ensures s[0] == '0' ==> n == 0
    decreases n
  {
    if n < 10 then [DigitChar(n)] else NatToString(n / 10) + [DigitChar(n % 10)]
  }

  lemma {:induction false} ParseNatToString(n: nat)
    ensures ParseDecimal(NatToString(n)) == n
    decreases n
  {
    if n >= 10 {
      var s := NatToString(n);
      assert s[..|s| - 1] == NatToString(n / 10);
      ParseNatToString(n / 10);
    }
  }

  /** A number below 10^k takes at most k digits. */
  lemma {:induction false} NatToStringLength(n: nat, k: nat)
    requires 1 <= k && n < Pow10(k)
    ensures |NatToString(n)| <= k
    decreases k
  {
    if n >= 10 {
      assert Pow10(1) == 10;
      assert n / 10 < Pow10(k - 1);
      NatToStringLength(n / 10, k - 1);
    }
  }

  function Repeat(c: char, k: nat): (r: string)
    ensures |r| == k
  {
    if k == 0 then [] else [c] + Repeat(c, k - 1)
  }

  lemma {:induction false} RepeatIsUniform(c: char, k: nat)
    ensures forall i :: 0 <= i < k ==> Repeat(c, k)[i] == c
  {
    if k > 0 {
      RepeatIsUniform(c, k - 1);
      assert forall i :: 1 <= i < k ==> Repeat(c, k)[i] == Repeat(c, k - 1)[i - 1];
    }
  }

  /** `s.padStart(width, fill)`: fill on the left up to `width`; never truncates. */
  function PadStart(s: string, width: nat, fill: char): (r: string)
    ensures |r| == if |s| < width then width else |s|
    ensures r[|r| - |s|..] == s
  {
    if |s| < width then Repeat(fill, width - |s|) + s else s
  }

  /** Everything `padStart` puts in front of the original string is the fill character. */
  lemma PadStartFill(s: string, width: nat, fill: char)
    ensures var r := PadStart(s, width, fill);
      forall i :: 0 <= i < |r| - |s| ==> r[i] == fill
  {
    if |s| < width {
      RepeatIsUniform(fill, width - |s|);
    }
  }

  lemma {:induction false} ZerosParseToZero(z: string)
    requires forall i :: 0 <= i < |z| ==> z[i] == '0'
    ensures AllDigits(z) && ParseDecimal(z) == 0
    decreases |z|
  {
    if z != [] {
      ZerosParseToZero(z[..|z| - 1]);
    }
  }

  lemma {:induction false} LeadingZerosIgnored(z: string, s: string)
    requires forall i :: 0 <= i < |z| ==> z[i] == '0'
    requires AllDigits(s)
    ensures AllDigits(z + s) && ParseDecimal(z + s) == ParseDecimal(s)
    decreases |s|
  {
    if s == [] {
      assert z + s == z;
      ZerosParseToZero(z);
    } else {
      assert (z + s)[..|z + s| - 1] == z + s[..|s| - 1];
      LeadingZerosIgnored(z, s[..|s| - 1]);
    }
  }

  /**
   * Zero-padding the rendering of `n` keeps it a digit string worth `n`, and
   * when `n` has at most `width` digits the result is exactly `width` long.
   */
  lemma ZeroPaddedValue(n: nat, width: nat)
    ensures var r := PadStart(NatToString(n), width, '0');
      AllDigits(r) && ParseDecimal(r) == n &&
      (n < Pow10(width) && 1 <= width ==> |r| == width)
  {
    var s := NatToString(n);
    var r := PadStart(s, width, '0');
    ParseNatToString(n);
    PadStartFill(s, width, '0');
    assert r == r[..|r| - |s|] + s;
    LeadingZerosIgnored(r[..|r| - |s|], s);
    if n < Pow10(width) && 1 <= width {
      NatToStringLength(n, width);
    }
  }

  /** `pad(n)` of main.js: at least two digits, zero-filled on the left. */
  function Pad(n: nat): (r: string)
    ensures AllDigits(r) && ParseDecimal(r) == n
    ensures n < 100 ==> |r| == 2
    ensures 10 <= n ==> r == NatToString(n)
  {
    ZeroPaddedValue(n, 2);
    assert 10 <= n ==> |NatToString(n)| >= 2;
    PadStart(NatToString(n), 2, '0')
  }
}
