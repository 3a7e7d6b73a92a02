/**
 * Decimal text of integers, as Go's `strconv.Itoa` writes it and
 * `strconv.Atoi` reads it on a 64-bit platform.
 */
module Decimal {
  import opened Results
  import opened GoInt

  predicate IsDigit(c: char) {
    '0' <= c <= '9'
  }

  predicate AllDigits(s: string) {
    forall i :: 0 <= i < |s| ==> IsDigit(s[i])
  }

  function DigitChar(d: nat): (c: char)
    requires d < 10
    ensures IsDigit(c)
  {
    ('0' as int + d) as char
  }

  function DigitValue(c: char): (d: nat)
    requires IsDigit(c)
    ensures d < 10
  {
    c as int - '0' as int
  }

  /** The number a string of decimal digits denotes (most significant digit first). */
  function Value(s: string): nat
    requires AllDigits(s)
  {
    if s == [] then 0 else Value(s[..|s| - 1]) * 10 + DigitValue(s[|s| - 1])
  }

  /** The shortest decimal digits of `n`: no leading zero, and they denote `n`. */
  function Digits(n: nat): (s: string)
    ensures |s| >= 1 && AllDigits(s)
    ensures s[0] == '0' ==> n == 0 && s == "0"
    ensures Value(s) == n
  {
    if n < 10 then [DigitChar(n)]
    else
      var p := Digits(n / 10);
      var s := p + [DigitChar(n % 10)];
      assert s[..|s| - 1] == p;
      s
  }

  /** `strconv.Itoa`: a minus sign for negative numbers, then the digits of the magnitude. */
  function Itoa(n: int): (s: string)
    ensures |s| >= 1
    ensures s[0] == '-' <==> n < 0
    ensures n >= 0 ==> s == Digits(n)
    ensures n < 0 ==> s == "-" + Digits(-n)
  {
    if n < 0 then "-" + Digits(-n) else Digits(n)
  }

  /**
   * `strconv.Atoi` on a 64-bit platform: an optional `+` or `-`, at least one
   * decimal digit, and a value that fits in 64 bits; anything else fails.
   */
  function Atoi(s: string): (r: Option<int>)
    ensures r.Some? ==> InRange(r.value)
  {
    var neg := |s| > 0 && s[0] == '-';
    var body := if |s| > 0 && (s[0] == '-' || s[0] == '+') then s[1..] else s;
    if |body| == 0 || !AllDigits(body) then None
    else
      var mag: int := Value(body);
      var v := if neg then -mag else mag;
      if InRange(v) then Some(v) else None
  }

  /** Reading back what `Itoa` writes gives the number again. */
  lemma AtoiItoa(n: int)
    requires InRange(n)
    ensures Atoi(Itoa(n)) == Some(n)
  {
    var s := Itoa(n);
    if n < 0 {
      assert s[1..] == Digits(-n);
    }
  }

  /** A string of digits is read as the number it denotes, as long as that number fits. */
  lemma AtoiDigits(s: string)
    requires |s| >= 1 && AllDigits(s)
    ensures Atoi(s) == (if Value(s) <= MaxInt64 then Some(Value(s) as int) else None)
  {
    assert IsDigit(s[0]);
  }
}
