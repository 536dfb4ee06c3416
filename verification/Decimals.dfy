/** Numbers in decimal. */
module Decimals {

  predicate IsDigit(c: char) {
    '0' <= c <= '9'
  }

  const DIGITS := "0123456789"

  function Decimal(n: nat): (s: string)
    ensures s != [] && forall c :: c in s ==> IsDigit(c)
  {
    if n < 10 then [DIGITS[n]] else Decimal(n / 10) + [DIGITS[n % 10]]
  }

  function ParseDecimal(s: string): nat
    requires forall c :: c in s ==> IsDigit(c)
  {
    if s == [] then 0
    else
      assert IsDigit(s[|s| - 1]);
      10 * ParseDecimal(s[..|s| - 1]) + (s[|s| - 1] - '0') as nat
  }

  lemma {:induction false} ParseOfDecimal(n: nat)
    ensures ParseDecimal(Decimal(n)) == n
    decreases n
  {
    if n >= 10 {
      ParseOfDecimal(n / 10);
      assert Decimal(n)[..|Decimal(n)| - 1] == Decimal(n / 10);
    } else {
      assert Decimal(n)[..|Decimal(n)| - 1] == [];
    }
  }

  /** A numeral is read digit by digit, the digits being these and no others. */
  lemma ParseDigit(s: string, c: char)
    requires forall d :: d in s ==> IsDigit(d)
    ensures IsDigit(c) <==> c in "0123456789"
    ensures forall d :: 0 <= d < 10 && c == "0123456789"[d] ==> ParseDecimal(s + [c]) == 10 * ParseDecimal(s) + d
    ensures ParseDecimal("") == 0
  {
    assert (s + [c])[..|s|] == s;
    assert forall d :: 0 <= d < 10 ==> "0123456789"[d] as int == '0' as int + d;
  }

  function LeadingDigits(s: string): nat {
    if s == [] || !IsDigit(s[0]) then 0 else 1 + LeadingDigits(s[1..])
  }

  lemma {:induction false} DigitRun(d: string, r: string)
    requires (forall c :: c in d ==> IsDigit(c)) && (r == [] || !IsDigit(r[0]))
    ensures LeadingDigits(d + r) == |d|
    decreases |d|
  {
    if d == [] {
      assert d + r == r;
    } else {
      assert (d + r)[1..] == d[1..] + r;
      DigitRun(d[1..], r);
    }
  }

  /** A run of digits that a non-digit or the end follows can be told from the rest. */
  lemma DigitRunUnique(d: string, r: string, d': string, r': string)
    requires (forall c :: c in d ==> IsDigit(c)) && (forall c :: c in d' ==> IsDigit(c))
    requires (r == [] || !IsDigit(r[0])) && (r' == [] || !IsDigit(r'[0]))
    requires d + r == d' + r'
    ensures d == d' && r == r'
  {
    DigitRun(d, r);
    DigitRun(d', r');
    assert d == (d + r)[..|d|] && d' == (d' + r')[..|d'|];
    assert r == (d + r)[|d|..] && r' == (d' + r')[|d'|..];
  }
}
