/** Go's `strconv.ParseInt(s, 10, 64)`, which the handlers use on the `{id}` path
    parameter, and its inverse `strconv.FormatInt(n, 10)`. */
module StrConv {
  import opened Wrappers
  import opened GoTypes

  predicate IsDigit(c: char) {
    '0' <= c <= '9'
  }

  predicate AllDigits(s: string) {
    forall i :: 0 <= i < |s| ==> IsDigit(s[i])
  }

  /** The value of a string of decimal digits, leading zeros allowed. */
  function DigitsValue(s: string): nat
    requires AllDigits(s)
  {
    if |s| == 0 then 0
    else DigitsValue(s[..|s| - 1]) * 10 + (s[|s| - 1] as int - '0' as int)
  }

  /** `strconv.ParseInt(s, 10, 64)`: an optional `+` or `-`, then one or more
      decimal digits (no underscores, no base prefix), whose value must fit in
      an int64. `None` stands for both the syntax error and the range error. */
  function ParseInt64(s: string): (r: Option<Int64>)
    ensures r.Some? ==> |s| > 0 && AllDigits(s[1..])
    ensures r.Some? && !IsDigit(s[0]) ==> s[0] in {'+', '-'} && |s| >= 2
    ensures AllDigits(s) && |s| > 0 && DigitsValue(s) <= MaxInt64 ==> r == Some(DigitsValue(s))
    ensures AllDigits(s) && DigitsValue(s) > MaxInt64 ==> r.None?
  {
    if |s| == 0 then None
    else
      var negative := s[0] == '-';
      var digits := if s[0] == '-' || s[0] == '+' then s[1..] else s;
      if |digits| == 0 || !AllDigits(digits) then None
      else
        var magnitude: int := DigitsValue(digits);
        var n: int := if negative then -magnitude else magnitude;
        if MinInt64 <= n <= MaxInt64 then Some(n) else None
  }

  /** Decimal digits of a natural number, without leading zeros. */
  function FormatNat(n: nat): (s: string)
    ensures |s| > 0 && AllDigits(s)
  {
    if n < 10 then [('0' as int + n) as char]
    else FormatNat(n / 10) + [('0' as int + n % 10) as char]
  }

  /** `strconv.FormatInt(n, 10)`. */
  function FormatInt64(n: Int64): string {
    if n < 0 then "-" + FormatNat(-(n as int)) else FormatNat(n)
  }

  lemma {:induction false} DigitsOfFormat(n: nat)
    ensures DigitsValue(FormatNat(n)) == n
  {
    if n >= 10 {
      var s := FormatNat(n);
      DigitsOfFormat(n / 10);
      assert s[..|s| - 1] == FormatNat(n / 10);
    }
  }

  /** Every int64 printed in base 10 parses back to itself, so every id the
      service hands out can be addressed through the `{id}` path parameter. */
  lemma ParseFormat(n: Int64)
    ensures ParseInt64(FormatInt64(n)) == Some(n)
  {
    var s := FormatInt64(n);
    if n < 0 {
      DigitsOfFormat(-(n as int));
      assert s[1..] == FormatNat(-(n as int));
    } else {
      DigitsOfFormat(n);
      assert s[0] != '-' && s[0] != '+';
    }
  }

  /** Inputs the `{id}` parameter may carry: empty, signless garbage, a bare
      sign and a fraction are rejected; a sign and leading zeros are
      accepted. */
  lemma ParseExamples()
    ensures ParseInt64("") == None
    ensures ParseInt64("abc") == None
    ensures ParseInt64("-") == None
    ensures ParseInt64("1.5") == None
    ensures ParseInt64("-12") == Some(-12)
    ensures ParseInt64("+007") == Some(7)
  {
    assert !IsDigit("abc"[0]);
    assert !IsDigit("1.5"[1]);
    assert "+007"[1..] == "007";
    assert "007"[..2] == "00" && "00"[..1] == "0";
    assert DigitsValue("007") == 7;
    assert "-12"[1..] == "12";
    assert "12"[..1] == "1";
  }
}
