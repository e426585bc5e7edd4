// Number-to-string conversions the codec relies on: `Number.prototype.toString(2)`
// for the binary dump and the decimal conversion of `'mtk' + foreground`, each
// with the value its digits denote, so that a conversion can be stated as
// "the string reads back as the number".
module NumberStrings {

  function Pow2(k: nat): (p: nat)
    ensures p >= 1
  {
    if k == 0 then 1 else 2 * Pow2(k - 1)
  }

  lemma Pow2Of32()
    ensures Pow2(32) == 0x1_0000_0000
  {
    assert Pow2(8) == 0x100;
    assert Pow2(16) == 0x1_0000;
    assert Pow2(24) == 0x100_0000;
  }

  // ---------------------------------------------------------------- base 2

  predicate IsBinary(s: string) {
    forall i :: 0 <= i < |s| ==> s[i] == '0' || s[i] == '1'
  }

  /** The number a string of binary digits denotes, most significant digit first. */
  function BinaryValue(s: string): nat {
    if s == [] then 0
    else 2 * BinaryValue(s[..|s| - 1]) + (if s[|s| - 1] == '1' then 1 else 0)
  }

  function Zeros(n: nat): (z: string)
    ensures |z| == n && IsBinary(z)
    ensures forall i :: 0 <= i < n ==> z[i] == '0'
  {
    seq(n, _ => '0')
  }

  /** The digits `toString(2)` gives for a non-negative integer: no leading zero, "0" for zero. */
  function BinaryDigits(n: nat): (s: string)
    ensures |s| >= 1 && IsBinary(s) && BinaryValue(s) == n
    ensures s[0] == '0' <==> n == 0
    ensures n == 0 ==> s == "0"
  {
    var last := if n % 2 == 0 then "0" else "1";
    if n < 2 then last
    else
      var s := BinaryDigits(n / 2) + last;
      assert s[..|s| - 1] == BinaryDigits(n / 2);
      s
  }

  /** A number below 2^k needs at most k binary digits. */
  lemma {:induction false} BinaryDigitsFit(n: nat, k: nat)
    requires 1 <= k && n < Pow2(k)
    ensures |BinaryDigits(n)| <= k
  {
    if n >= 2 {
      BinaryDigitsFit(n / 2, k - 1);
    }
  }

  /** A 32-bit word needs at most 32 binary digits. */
  lemma WordDigitsFit(n: nat)
    requires n < 0x1_0000_0000
    ensures |BinaryDigits(n)| <= 32
  {
    Pow2Of32();
    BinaryDigitsFit(n, 32);
  }

  /** One more '0' in front of a zero-padded string lengthens its padding by one. */
  lemma PrependZeroToZeros(k: nat, s: string)
    ensures "0" + (Zeros(k) + s) == Zeros(k + 1) + s
    ensures IsBinary(s) ==> IsBinary("0" + (Zeros(k) + s))
  {
    assert "0" + Zeros(k) == Zeros(k + 1);
  }

  /** Prepending a '0' does not change the value. */
  lemma {:induction false} LeadingZeroKeepsValue(s: string)
    ensures BinaryValue("0" + s) == BinaryValue(s)
  {
    var t := "0" + s;
    if s == [] {
      assert t[..|t| - 1] == [];
    } else {
      assert t[..|t| - 1] == "0" + s[..|s| - 1];
      LeadingZeroKeepsValue(s[..|s| - 1]);
    }
  }

  /** Binary strings of one length are told apart by their values. */
  lemma {:induction false} BinaryValueInjective(s: string, t: string)
    requires |s| == |t| && IsBinary(s) && IsBinary(t)
    requires BinaryValue(s) == BinaryValue(t)
    ensures s == t
  {
    if s != [] {
      var n := |s| - 1;
      assert IsBinary(s[..n]) && IsBinary(t[..n]);
      BinaryValueInjective(s[..n], t[..n]);
      assert s == s[..n] + [s[n]] && t == t[..n] + [t[n]];
    }
  }

  lemma {:induction false} ZerosValue(n: nat)
    ensures BinaryValue(Zeros(n)) == 0
  {
    if n > 0 {
      assert Zeros(n)[..n - 1] == Zeros(n - 1);
      ZerosValue(n - 1);
    }
  }

  // ---------------------------------------------------------------- base 10

  predicate IsDigit(c: char) {
    '0' <= c <= '9'
  }

  predicate IsDecimal(s: string) {
    forall i :: 0 <= i < |s| ==> IsDigit(s[i])
  }

  function DigitChar(d: nat): (c: char)
    requires d < 10
    ensures IsDigit(c) && c as int - '0' as int == d
  {
    ('0' as int + d) as char
  }

  /** The number a string of decimal digits denotes, most significant digit first. */
  function DecimalValue(s: string): nat
    requires IsDecimal(s)
  {
    if s == [] then 0
    else 10 * DecimalValue(s[..|s| - 1]) + (s[|s| - 1] as int - '0' as int)
  }

  /** The digits `toString()` gives for a non-negative integer: no leading zero, "0" for zero. */
  function DecimalDigits(n: nat): (s: string)
    ensures |s| >= 1 && IsDecimal(s) && DecimalValue(s) == n
    ensures s[0] == '0' <==> n == 0
    ensures n == 0 ==> s == "0"
  {
    var last := [DigitChar(n % 10)];
    if n < 10 then last
    else
      var s := DecimalDigits(n / 10) + last;
      assert s[..|s| - 1] == DecimalDigits(n / 10);
      s
  }

  /** The length of the run of decimal digits at the front of `s`. */
  function LeadingDigits(s: string): (n: nat)
    ensures n <= |s| && IsDecimal(s[..n])
    ensures n == |s| || !IsDigit(s[n])
  {
    if s == [] || !IsDigit(s[0]) then 0
    else
      var n := 1 + LeadingDigits(s[1..]);
      assert s[..n] == [s[0]] + s[1..][..n - 1];
      n
  }

  /** A run of digits followed by nothing or by a non-digit is read off whole. */
  lemma {:induction false} LeadingDigitsOfRun(d: string, rest: string)
    requires IsDecimal(d)
    requires rest == [] || !IsDigit(rest[0])
    ensures LeadingDigits(d + rest) == |d|
  {
    if d != [] {
      assert (d + rest)[1..] == d[1..] + rest;
      LeadingDigitsOfRun(d[1..], rest);
    } else {
      assert d + rest == rest;
    }
  }
}
