/** Decimal text: Python's `str(n)` for the positional keys `to_json` writes, and
    `int(text)` for the rating texts `visualise` converts with `astype(int)`. */
module Decimal {
  import opened Outcomes

  predicate IsDigit(ch: char)
  {
    '0' <= ch <= '9'
  }

  predicate AllDigits(s: string)
  {
    forall k | 0 <= k < |s| :: IsDigit(s[k])
  }

  function DigitChar(d: nat): (ch: char)
    requires d < 10
    ensures IsDigit(ch)
  {
    ('0' as int + d) as char
  }

  function DigitValue(ch: char): (d: nat)
    requires IsDigit(ch)
    ensures d < 10
  {
    ch as int - '0' as int
  }

  /** Python's `str(n)` for a non-negative integer. */
  function ShowNat(n: nat): (s: string)
    ensures s != [] && AllDigits(s)
    ensures n > 0 ==> s[0] != '0'
    decreases n
  {
    if n < 10 then [DigitChar(n)]
    else
      var front := ShowNat(n / 10);
      assert (front + [DigitChar(n % 10)])[0] == front[0];
      front + [DigitChar(n % 10)]
  }

  /** The value of a string of decimal digits, most significant first. */
  function DigitsValue(s: string): nat
    requires AllDigits(s)
    decreases |s|
  {
    if s == [] then 0 else DigitsValue(s[..|s| - 1]) * 10 + DigitValue(s[|s| - 1])
  }

  /** Python's `int(text)` on an optionally signed run of ASCII digits; any other text is
      refused (`None`), as `int` raises ValueError. */
  function ParseInt(s: string): (r: Option<int>)
    ensures r.Some? <==>
      s != [] && AllDigits(s[1..]) && (IsDigit(s[0]) || (|s| >= 2 && (s[0] == '-' || s[0] == '+')))
    ensures r.Some? && r.value < 0 ==> s[0] == '-'
  {
    if |s| >= 2 && s[0] == '-' && AllDigits(s[1..]) then Some(-(DigitsValue(s[1..]) as int))
    else if |s| >= 2 && s[0] == '+' && AllDigits(s[1..]) then Some(DigitsValue(s[1..]))
    else if s != [] && AllDigits(s) then Some(DigitsValue(s))
    else None
  }

  lemma {:induction false} ShowNatValue(n: nat)
    ensures DigitsValue(ShowNat(n)) == n
    decreases n
  {
    var s := ShowNat(n);
    if n < 10 {
      assert s[..|s| - 1] == [];
    } else {
      assert s[..|s| - 1] == ShowNat(n / 10);
      ShowNatValue(n / 10);
    }
  }

  /** `int(str(n)) == n`, and likewise with a minus sign in front. */
  lemma ParseShowNat(n: nat)
    ensures ParseInt(ShowNat(n)) == Some(n)
    ensures ParseInt("-" + ShowNat(n)) == Some(-(n as int))
  {
    var s := ShowNat(n);
    ShowNatValue(n);
    assert ("-" + s)[1..] == s;
    if |s| >= 2 {
      assert s[0] != '-' && s[0] != '+' by { assert IsDigit(s[0]); }
    }
  }

  /** Distinct numbers have distinct decimal texts, so positional keys never collide. */
  lemma ShowNatInjective(m: nat, n: nat)
    requires ShowNat(m) == ShowNat(n)
    ensures m == n
  {
    ShowNatValue(m);
    ShowNatValue(n);
  }
}
