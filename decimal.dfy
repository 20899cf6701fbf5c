/** Invariant-culture decimal text for integers: what `int.ToString(CultureInfo.InvariantCulture)`
    writes and what `int.TryParse(s, NumberStyles.Integer, ...)` / `Convert.ToInt32(string)` read
    back (an optional leading sign, then one or more ASCII digits; leading zeros allowed). */
module Decimal {
  import opened Wrappers
  import opened Values

  predicate IsDigit(c: char) { '0' <= c <= '9' }

  predicate AllDigits(s: string) { forall i :: 0 <= i < |s| ==> IsDigit(s[i]) }

  function DigitChar(d: int): (c: char)
    requires 0 <= d < 10
    ensures IsDigit(c) && c as int - '0' as int == d
  {
    ('0' as int + d) as char
  }

  /** The shortest decimal digits of `n` ("0" for zero). */
  function NatDigits(n: nat): (s: string)
    ensures |s| > 0 && AllDigits(s)
    ensures |s| > 1 ==> s[0] != '0'
    decreases n
  {
    if n < 10 then [DigitChar(n)] else NatDigits(n / 10) + [DigitChar(n % 10)]
  }

  /** The value of a string of decimal digits, most significant first. */
  function DigitsValue(s: string): nat
    requires AllDigits(s)
    decreases |s|
  {
    if s == [] then 0 else DigitsValue(s[..|s| - 1]) * 10 + (s[|s| - 1] as int - '0' as int)
  }

  lemma {:induction false} DigitsValueOfNatDigits(n: nat)
    ensures DigitsValue(NatDigits(n)) == n
    decreases n
  {
    if n >= 10 {
      var s := NatDigits(n);
      DigitsValueOfNatDigits(n / 10);
      assert s[..|s| - 1] == NatDigits(n / 10);
    }
  }

  /** `n.ToString(CultureInfo.InvariantCulture)`. */
  function FormatInt(n: int): (s: string)
    ensures |s| > 0
    ensures forall i :: 0 <= i < |s| ==> s[i] != ','
  {
    if n < 0 then "-" + NatDigits(-n) else NatDigits(n)
  }

  /** An optional '-' or '+' followed by at least one digit; no range limit. */
  function ParseInteger(s: string): (r: Option<int>)
    ensures r.Some? ==> |s| > 0
  {
    if |s| > 0 && (s[0] == '-' || s[0] == '+') then
      var body := s[1..];
      if |body| > 0 && AllDigits(body) then
        var magnitude: int := DigitsValue(body);
        Some(if s[0] == '-' then -magnitude else magnitude)
      else None
    else if |s| > 0 && AllDigits(s) then Some(DigitsValue(s))
    else None
  }

  /** `int.TryParse`: the integer syntax, and the value must fit in 32 bits. */
  function ParseInt32(s: string): (r: Option<int32>)
    ensures r.Some? <==> ParseInteger(s).Some? && InInt32Range(ParseInteger(s).value)
    ensures r.Some? ==> r.value == ParseInteger(s).value
  {
    match ParseInteger(s)
    case Some(n) => if InInt32Range(n) then Some(n as int32) else None
    case None => None
  }

  /** `long.TryParse`: the integer syntax, and the value must fit in 64 bits. */
  function ParseInt64(s: string): (r: Option<int64>)
    ensures r.Some? ==> ParseInteger(s).Some? && r.value == ParseInteger(s).value
    ensures ParseInt32(s).Some? ==> r == Some(ParseInt32(s).value as int64)
  {
    match ParseInteger(s)
    case Some(n) =>
      if -0x8000_0000_0000_0000 <= n < 0x8000_0000_0000_0000 then Some(n as int64) else None
    case None => None
  }

  lemma FormatParses(n: int)
    ensures ParseInteger(FormatInt(n)) == Some(n)
  {
    if n < 0 {
      var s := FormatInt(n);
      assert s[1..] == NatDigits(-n);
      DigitsValueOfNatDigits(-n);
    } else {
      DigitsValueOfNatDigits(n);
    }
  }

  /** Writing an int and parsing it back gives the same int. */
  lemma FormatParsesInt32(n: int32)
    ensures ParseInt32(FormatInt(n)) == Some(n)
  {
    FormatParses(n);
  }

  lemma FormatParsesInt64(n: int64)
    ensures ParseInt64(FormatInt(n)) == Some(n)
  {
    FormatParses(n);
  }
}
