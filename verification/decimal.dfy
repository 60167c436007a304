/** Decimal numerals as the JDK reads and writes them: `Integer.valueOf` /
    `Long.valueOf` (radix 10, ASCII digits), `String.valueOf(int)` and
    `String.trim`. */
module Decimal {
  import opened Common

  /** 2^31: `Integer.valueOf` accepts values in [-2^31, 2^31 - 1]. */
  const IntBound: nat := 0x8000_0000
  /** 2^63: `Long.valueOf` accepts values in [-2^63, 2^63 - 1]. */
  const LongBound: nat := 0x8000_0000_0000_0000

  predicate IsDigit(c: char) { '0' <= c <= '9' }

  predicate AllDigits(s: string) { forall i :: 0 <= i < |s| ==> IsDigit(s[i]) }

  function DigitValue(c: char): (d: nat)
    requires IsDigit(c)
    ensures d < 10
  {
    c as int - '0' as int
  }

  function DigitChar(d: nat): (c: char)
    requires d < 10
    ensures IsDigit(c) && DigitValue(c) == d
  {
    ('0' as int + d) as char
  }

  /** The value of a string of decimal digits, most significant digit first;
      the empty string has value 0. */
  function DigitsValue(s: string): nat
    requires AllDigits(s)
  {
    if |s| == 0 then 0 else 10 * DigitsValue(s[..|s| - 1]) + DigitValue(s[|s| - 1])
  }

  /** The shortest decimal numeral of `n`, as `String.valueOf` writes it. */
  function FormatNat(n: nat): (r: string)
    ensures |r| >= 1 && AllDigits(r)
    ensures DigitsValue(r) == n
    ensures r[0] == '0' ==> n == 0
  {
    if n < 10 then [DigitChar(n)]
    else
      var prefix := FormatNat(n / 10);
      var r := prefix + [DigitChar(n % 10)];
      assert r[..|r| - 1] == prefix;
      r
  }

  function Pow10(k: nat): (r: nat)
    ensures r >= 1
  {
    if k == 0 then 1 else 10 * Pow10(k - 1)
  }

  /** A number below 10^k has at most k digits. */
  lemma {:induction false} FormatNatWidth(n: nat, k: nat)
    requires 1 <= k && n < Pow10(k)
    ensures |FormatNat(n)| <= k
  {
    if n >= 10 {
      assert k >= 2;
      assert n / 10 < Pow10(k - 1);
      FormatNatWidth(n / 10, k - 1);
    }
  }

  /** `n` written with leading zeros up to `width` digits, as a
      `DateTimeFormatter` field of that width writes it. */
  function Padded(n: nat, width: nat): (r: string)
    ensures AllDigits(r) && DigitsValue(r) == n
    ensures |r| == Max(width, |FormatNat(n)|)
  {
    var digits := FormatNat(n);
    var zeros := if width > |digits| then seq(width - |digits|, _ => '0') else [];
    LeadingZeros(zeros, digits);
    zeros + digits
  }

  /** Leading zeros do not change the value of a numeral. */
  lemma {:induction false} LeadingZeros(zeros: string, s: string)
    requires forall i :: 0 <= i < |zeros| ==> zeros[i] == '0'
    requires AllDigits(s)
    ensures AllDigits(zeros + s) && DigitsValue(zeros + s) == DigitsValue(s)
  {
    if |s| == 0 {
      assert zeros + s == zeros;
      if |zeros| > 0 {
        LeadingZeros(zeros[..|zeros| - 1], s);
        assert zeros[..|zeros| - 1] + s == zeros[..|zeros| - 1];
      }
    } else {
      LeadingZeros(zeros, s[..|s| - 1]);
      assert (zeros + s)[..|zeros + s| - 1] == zeros + s[..|s| - 1];
    }
  }

  /** `String.valueOf(int)` and `%d`: a minus sign for negative values. */
  function FormatInt(n: int): (r: string)
    ensures |r| >= 1
    ensures n < 0 <==> r[0] == '-'
  {
    if n < 0 then "-" + FormatNat(-n) else FormatNat(n)
  }

  /** `Integer.valueOf` (bound 2^31) or `Long.valueOf` (bound 2^63) of a
      string: one optional sign, at least one digit, and a value in
      [-bound, bound - 1]; anything else is a NumberFormatException. */
  function ParseSigned(s: string, bound: nat): (r: Result<int>)
    ensures r.Ok? ==> -(bound as int) <= r.value < bound
    ensures r.Err? ==> r.error == NumberFormat
    ensures r.Ok? ==> |s| >= 1 && (IsDigit(s[0]) || s[0] == '-' || s[0] == '+')
  {
    if |s| == 0 then Err(NumberFormat)
    else
      var body := if s[0] == '-' || s[0] == '+' then s[1..] else s;
      if |body| == 0 || !AllDigits(body) then Err(NumberFormat)
      else
        var v := if s[0] == '-' then -(DigitsValue(body) as int) else DigitsValue(body);
        if -(bound as int) <= v < bound then Ok(v) else Err(NumberFormat)
  }

  /** A run of digits reads as its value when it is not empty and the
      value is in range. */
  lemma ParseDigits(digits: string, bound: nat)
    requires AllDigits(digits)
    ensures ParseSigned(digits, bound)
            == if |digits| > 0 && DigitsValue(digits) < bound then Ok(DigitsValue(digits) as int) else Err(NumberFormat)
  {
  }

  /** Every in-range integer survives printing and reading back. */
  lemma ParseFormatRoundTrip(n: int, bound: nat)
    requires -(bound as int) <= n < bound
    ensures ParseSigned(FormatInt(n), bound) == Ok(n)
  {
    var s := FormatInt(n);
    if n < 0 {
      assert s[1..] == FormatNat(-n);
    }
  }

  /** Characters `String.trim` removes from either end. */
  predicate IsTrimmed(c: char) { c <= ' ' }

  /** `String.trim`: drops leading and trailing characters up to U+0020. */
  function Trim(s: string): (r: string)
    ensures exists i, j :: 0 <= i <= j <= |s| && r == s[i..j]
                           && (forall k :: 0 <= k < i ==> IsTrimmed(s[k]))
                           && (forall k :: j <= k < |s| ==> IsTrimmed(s[k]))
    ensures |r| == 0 || (!IsTrimmed(r[0]) && !IsTrimmed(r[|r| - 1]))
  {
    var i := LeadingCount(s);
    var j := i + TrailingStart(s[i..]);
    s[i..j]
  }

  /** The number of trimmable characters at the front of `s`. */
  function LeadingCount(s: string): (i: nat)
    ensures i <= |s|
    ensures forall k :: 0 <= k < i ==> IsTrimmed(s[k])
    ensures i < |s| ==> !IsTrimmed(s[i])
  {
    if |s| > 0 && IsTrimmed(s[0]) then 1 + LeadingCount(s[1..]) else 0
  }

  /** Where the run of trimmable characters at the end of `s` begins. */
  function TrailingStart(s: string): (j: nat)
    ensures j <= |s|
    ensures forall k :: j <= k < |s| ==> IsTrimmed(s[k])
    ensures j > 0 ==> !IsTrimmed(s[j - 1])
  {
    if |s| > 0 && IsTrimmed(s[|s| - 1]) then TrailingStart(s[..|s| - 1]) else |s|
  }
}
