/** Decimal text: reading an integer the way Python's `int(text)` does for plain
    decimal strings, and writing a natural number with `f"{n:0Wd}"` zero padding. */
module Decimal {
  import opened Wrappers

  predicate IsDigit(c: char) { '0' <= c <= '9' }

  /** Every character is a decimal digit (the empty string qualifies). */
  predicate AllDigits(s: string) { forall i :: 0 <= i < |s| ==> IsDigit(s[i]) }

  /** A non-empty run of decimal digits. */
  predicate IsDigits(s: string) { |s| > 0 && AllDigits(s) }

  function DigitValue(c: char): nat
    requires IsDigit(c)
  {
    c as int - '0' as int
  }

  function DigitChar(d: nat): (c: char)
    requires d < 10
    ensures IsDigit(c) && DigitValue(c) == d
  {
    ('0' as int + d) as char
  }

  /** The number a run of digits denotes, most significant first. */
  function Value(s: string): nat
    requires AllDigits(s)
    decreases |s|
  {
    if |s| == 0 then 0 else Value(s[..|s| - 1]) * 10 + DigitValue(s[|s| - 1])
  }

  /** The shortest decimal rendering of `n` (what `str(n)` gives). */
  function Digits(n: nat): (s: string)
    ensures |s| >= 1
    decreases n
  {
    if n < 10 then [DigitChar(n)] else Digits(n / 10) + [DigitChar(n % 10)]
  }

  /** `str(n)` is a run of digits without a leading zero that reads back as `n`. */
  lemma {:induction false} DigitsValue(n: nat)
    ensures IsDigits(Digits(n))
    ensures Value(Digits(n)) == n
    ensures Digits(n)[0] != '0' || n == 0
    decreases n
  {
    if n >= 10 {
      DigitsValue(n / 10);
      var p := Digits(n / 10);
      var s := Digits(n);
      assert s == p + [DigitChar(n % 10)];
      assert s[..|s| - 1] == p;
    }
  }

  function Zeros(k: nat): (z: string)
    ensures |z| == k && forall i :: 0 <= i < k ==> z[i] == '0'
  {
    if k == 0 then [] else Zeros(k - 1) + ['0']
  }

  /** `f"{n:0{width}d}"` for a natural number: left-padded with zeros to at least `width` characters. */
  function ZeroPadded(n: nat, width: nat): string
  {
    var d := Digits(n);
    if |d| < width then Zeros(width - |d|) + d else d
  }

  /** Leading zeros do not change the value. */
  lemma {:induction false} ValueLeadingZeros(k: nat, s: string)
    requires AllDigits(s)
    ensures AllDigits(Zeros(k) + s) && Value(Zeros(k) + s) == Value(s)
    decreases |s|
  {
    var z := Zeros(k) + s;
    if |s| == 0 {
      assert z == Zeros(k);
      ZerosValue(k);
    } else {
      var s' := s[..|s| - 1];
      assert z[..|z| - 1] == Zeros(k) + s';
      ValueLeadingZeros(k, s');
    }
  }

  lemma {:induction false} ZerosValue(k: nat)
    ensures AllDigits(Zeros(k)) && Value(Zeros(k)) == 0
  {
    if k > 0 {
      assert Zeros(k)[..k - 1] == Zeros(k - 1);
      ZerosValue(k - 1);
    }
  }

  /** The padded rendering has exactly max(width, |str(n)|) digits and reads back as `n`. */
  lemma ZeroPaddedProperties(n: nat, width: nat)
    ensures IsDigits(ZeroPadded(n, width))
    ensures |ZeroPadded(n, width)| == if |Digits(n)| < width then width else |Digits(n)|
    ensures Value(ZeroPadded(n, width)) == n
  {
    var d := Digits(n);
    DigitsValue(n);
    if |d| < width {
      ValueLeadingZeros(width - |d|, d);
    }
  }

  function Pow10(k: nat): (p: nat)
    ensures p >= 1
  {
    if k == 0 then 1 else 10 * Pow10(k - 1)
  }

  /** A number below 10^k has at most k digits (k >= 1). */
  lemma {:induction false} DigitsFewer(n: nat, k: nat)
    requires k >= 1 && n < Pow10(k)
    ensures |Digits(n)| <= k
    decreases n
  {
    if n >= 10 {
      assert k >= 2;
      DigitsFewer(n / 10, k - 1);
    }
  }

  /** A number of at least 10^k has more than k digits. */
  lemma {:induction false} DigitsMore(n: nat, k: nat)
    requires n >= Pow10(k)
    ensures |Digits(n)| > k
    decreases n
  {
    if k > 0 {
      DigitsMore(n / 10, k - 1);
    }
  }

  /** Python's `int(text)` for text made of an optional sign and decimal digits;
      anything else is a ValueError. */
  function ParseInt(t: string): (r: Result<int>)
    ensures r.Ok? <==> (IsDigits(t) || (|t| > 1 && (t[0] == '-' || t[0] == '+') && IsDigits(t[1..])))
    ensures IsDigits(t) ==> r == Ok(Value(t))
    ensures r.Ok? && !IsDigits(t) ==> r.value == (if t[0] == '-' then 0 - Value(t[1..]) as int else Value(t[1..]))
    ensures r.Err? ==> r.error == ValueError
  {
    if |t| > 0 && (t[0] == '-' || t[0] == '+') then
      if IsDigits(t[1..]) then
        var v: int := Value(t[1..]);
        Ok(if t[0] == '-' then -v else v)
      else Err(ValueError)
    else if IsDigits(t) then Ok(Value(t))
    else Err(ValueError)
  }

  /** Writing a number and reading it back gives the number. */
  lemma ParseIntDigits(n: nat)
    ensures ParseInt(Digits(n)) == Ok(n)
  {
    DigitsValue(n);
  }

  /** `int("-" + str(n)) == -n` and `int("+" + str(n)) == n`. */
  lemma ParseIntSigned(n: nat)
    ensures ParseInt(['-'] + Digits(n)) == Ok(0 - n as int)
    ensures ParseInt(['+'] + Digits(n)) == Ok(n)
  {
    DigitsValue(n);
    assert (['-'] + Digits(n))[1..] == Digits(n);
    assert (['+'] + Digits(n))[1..] == Digits(n);
  }
}
