/** The printf conversions the printers use: `%u` of an unsigned value as
    decimal digits and `%d` of a 32-bit value reinterpreted as signed. A
    digit reader is the inverse that shows no information is lost. */
module Text {

  predicate IsDigit(c: char)
  {
    '0' <= c <= '9'
  }

  predicate AllDigits(s: string)
  {
    forall i :: 0 <= i < |s| ==> IsDigit(s[i])
  }

  function DigitChar(d: nat): (c: char)
    requires d < 10
    ensures IsDigit(c) && c as int - '0' as int == d
  {
    ('0' as int + d) as char
  }

  /** `%u`: the shortest decimal spelling of `n`. */
  function Decimal(n: nat): (s: string)
    ensures |s| >= 1 && AllDigits(s)
    ensures s[0] == '0' ==> n == 0
  {
    if n < 10 then [DigitChar(n)] else Decimal(n / 10) + [DigitChar(n % 10)]
  }

  /** The number a string of decimal digits denotes. */
  function DigitsValue(s: string): nat
    requires AllDigits(s)
  {
    if s == [] then 0
    else DigitsValue(s[..|s| - 1]) * 10 + (s[|s| - 1] as int - '0' as int)
  }

  /** Reading back what `%u` printed gives the number printed. */
  lemma {:induction false} DecimalRoundTrip(n: nat)
    ensures DigitsValue(Decimal(n)) == n
  {
    var s := Decimal(n);
    if n >= 10 {
      DecimalRoundTrip(n / 10);
      assert s[..|s| - 1] == Decimal(n / 10);
    }
  }

  /** Two numbers print the same way only if they are equal. */
  lemma DecimalInjective(m: nat, n: nat)
    requires Decimal(m) == Decimal(n)
    ensures m == n
  {
    DecimalRoundTrip(m);
    DecimalRoundTrip(n);
  }

  /** The signed 32-bit reading of an unsigned 32-bit pattern. */
  function Int32Of(u: nat): (i: int)
    requires u < 0x1_0000_0000
    ensures -0x8000_0000 <= i < 0x8000_0000
    ensures (i - u) % 0x1_0000_0000 == 0
  {
    if u < 0x8000_0000 then u else u - 0x1_0000_0000
  }

  /** `%d`: an optional minus sign followed by the decimal magnitude. */
  function SignedDecimal(i: int): (s: string)
    ensures |s| >= 1
    ensures s[0] == '-' <==> i < 0
    ensures i >= 0 ==> s == Decimal(i)
    ensures i < 0 ==> s[1..] == Decimal(-i)
  {
    if i < 0 then "-" + Decimal(-i) else Decimal(i)
  }

  /** Two numbers print the same `%d` text only if they are equal. */
  lemma SignedDecimalInjective(i: int, j: int)
    requires SignedDecimal(i) == SignedDecimal(j)
    ensures i == j
  {
    if i < 0 {
      DecimalInjective(-i, -j);
    } else {
      DecimalInjective(i, j);
    }
  }

  /** A digit string followed by text that does not start with a digit is
      split in only one way: this is what lets a reader recover each number
      from a line of `name value` pairs. */
  lemma {:induction false} DigitsPrefixUnique(d1: string, t1: string, d2: string, t2: string)
    requires AllDigits(d1) && AllDigits(d2)
    requires t1 != [] && !IsDigit(t1[0])
    requires t2 != [] && !IsDigit(t2[0])
    requires d1 + t1 == d2 + t2
    ensures d1 == d2 && t1 == t2
  {
    var s := d1 + t1;
    assert !IsDigit(s[|d1|]) && forall i :: 0 <= i < |d1| ==> IsDigit(s[i]);
    assert !IsDigit(s[|d2|]) && forall i :: 0 <= i < |d2| ==> IsDigit(s[i]);
    assert |d1| == |d2|;
    assert d1 == s[..|d1|] && t1 == s[|d1|..];
    assert d2 == s[..|d2|] && t2 == s[|d2|..];
  }
}
