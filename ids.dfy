/** Identifiers generated for visitors without a cookie: the decimal text of
    the current timestamp as Python prints a float. On the whole-second clock
    of this model that is the integer followed by ".0". */
module Ids {

  function DigitChar(n: nat): (c: char)
    requires n < 10
    ensures '0' <= c <= '9'
  {
    (48 + n) as char
  }

  function DigitValue(c: char): (n: nat)
    requires '0' <= c <= '9'
    ensures n < 10
  {
    c as int - 48
  }

  predicate AllDigits(s: string) {
    forall i :: 0 <= i < |s| ==> '0' <= s[i] <= '9'
  }

  /** Decimal digits of `n`, most significant first, without leading zeros. */
  function Digits(n: nat): (s: string)
    ensures 1 <= |s| && AllDigits(s)
    decreases n
  {
    if n < 10 then [DigitChar(n)] else Digits(n / 10) + [DigitChar(n % 10)]
  }

  /** Reads a string of decimal digits back as a number. */
  function ParseDigits(s: string): nat
    requires AllDigits(s)
  {
    if s == [] then 0 else ParseDigits(s[..|s| - 1]) * 10 + DigitValue(s[|s| - 1])
  }

  /** Reading the digits of `n` gives `n` back. */
  lemma {:induction false} ParseDigitsInverse(n: nat)
    ensures ParseDigits(Digits(n)) == n
    decreases n
  {
    if n >= 10 {
      var s := Digits(n);
      assert s[..|s| - 1] == Digits(n / 10);
      assert s[|s| - 1] == DigitChar(n % 10);
      ParseDigitsInverse(n / 10);
    }
  }

  /** Signed decimal text, with a leading '-' for negative values. */
  function Decimal(t: int): (s: string)
    ensures 1 <= |s|
  {
    if t < 0 then "-" + Digits(-t) else Digits(t)
  }

  /** `str(now.timestamp())` for a timestamp with no fractional part. */
  function TimestampId(t: int): (id: string)
    ensures id != ""
  {
    Decimal(t) + ".0"
  }

  /** The text of a value starts with '-' exactly when the value is negative. */
  lemma SignMark(t: int)
    ensures Decimal(t)[0] == '-' <==> t < 0
  {
    if t >= 0 {
      assert '0' <= Digits(t)[0] <= '9';
    }
  }

  /** Digit strings are a faithful rendering: equal digits, equal numbers. */
  lemma DigitsInjective(a: nat, b: nat)
    requires Digits(a) == Digits(b)
    ensures a == b
  {
    ParseDigitsInverse(a);
    ParseDigitsInverse(b);
  }

  lemma DecimalInjective(t1: int, t2: int)
    requires Decimal(t1) == Decimal(t2)
    ensures t1 == t2
  {
    SignMark(t1);
    SignMark(t2);
    if t1 < 0 {
      var s := Decimal(t1);
      assert s[1..] == Digits(-t1) == Digits(-t2);
      DigitsInjective(-t1, -t2);
    } else {
      DigitsInjective(t1, t2);
    }
  }

  /** Distinct times give distinct generated identifiers. */
  lemma TimestampIdInjective(t1: int, t2: int)
    ensures TimestampId(t1) == TimestampId(t2) ==> t1 == t2
  {
    if TimestampId(t1) == TimestampId(t2) {
      var a, b := Decimal(t1), Decimal(t2);
      assert |a| == |b|;
      assert a == (a + ".0")[..|a|] == (b + ".0")[..|b|] == b;
      DecimalInjective(t1, t2);
    }
  }
}
