/**
  strconv.Atoi on a 64-bit platform, as used to read the `retry-after` header
  (processor/processor.go): an optional `+` or `-`, then one or more decimal
  digits, with a value that fits in a signed 64-bit integer. Anything else,
  the empty string in particular, is an error.
 */
module Decimal {
  import opened Wrappers

  const MinInt64: int := -0x8000_0000_0000_0000
  const MaxInt64: int := 0x7FFF_FFFF_FFFF_FFFF

  predicate IsDigit(c: char)
  {
    '0' <= c <= '9'
  }

  predicate AllDigits(s: string)
  {
    forall i :: 0 <= i < |s| ==> IsDigit(s[i])
  }

  /** The value of a string of decimal digits, most significant first. */
  function DigitsValue(s: string): (n: nat)
    requires AllDigits(s)
  {
    if s == [] then 0
    else DigitsValue(s[..|s| - 1]) * 10 + (s[|s| - 1] - '0') as nat
  }

  /** Atoi's syntax: an optional sign followed by at least one digit. */
  predicate WellFormed(s: string)
  {
    var body := if |s| > 0 && (s[0] == '+' || s[0] == '-') then s[1..] else s;
    |body| > 0 && AllDigits(body)
  }

  /** strconv.Atoi: None stands for the syntax and range errors. */
  function Atoi(s: string): (r: Option<int>)
    ensures r.Some? <==> WellFormed(s) && MinInt64 <= SignedValue(s) <= MaxInt64
    ensures r.Some? ==> r.value == SignedValue(s)
  {
    if |s| == 0 then None
    else
      var signed := s[0] == '+' || s[0] == '-';
      var body := if signed then s[1..] else s;
      if |body| == 0 || !AllDigits(body) then None
      else
        var v: int := if s[0] == '-' then 0 - DigitsValue(body) as int else DigitsValue(body);
        if MinInt64 <= v <= MaxInt64 then Some(v) else None
  }

  /** The signed value a well-formed string denotes, regardless of range. */
  function SignedValue(s: string): int
  {
    if !WellFormed(s) then 0
    else if s[0] == '-' then 0 - DigitsValue(s[1..]) as int
    else if s[0] == '+' then DigitsValue(s[1..])
    else DigitsValue(s)
  }

  /** Decimal digits of a natural number, without leading zeros. */
  function NatDigits(n: nat): (s: string)
    ensures |s| > 0 && AllDigits(s)
    ensures s[0] != '0' || n == 0
    decreases n
  {
    if n < 10 then ['0' + n as char]
    else NatDigits(n / 10) + ['0' + (n % 10) as char]
  }

  /** strconv.Itoa: the decimal text of an integer, with `-` for a negative one. */
  function Itoa(n: int): (s: string)
    ensures WellFormed(s) && s[0] != '+'
  {
    if n < 0 then "-" + NatDigits(-n) else NatDigits(n)
  }

  lemma {:induction false} NatDigitsValue(n: nat)
    ensures DigitsValue(NatDigits(n)) == n
    decreases n
  {
    if n >= 10 {
      var s := NatDigits(n);
      assert s[..|s| - 1] == NatDigits(n / 10);
      NatDigitsValue(n / 10);
    }
  }

  /** Atoi reads back exactly what Itoa writes, for every 64-bit integer. */
  lemma AtoiItoa(n: int)
    requires MinInt64 <= n <= MaxInt64
    ensures Atoi(Itoa(n)) == Some(n)
  {
    if n < 0 {
      NatDigitsValue(-n);
      assert Itoa(n)[1..] == NatDigits(-n);
    } else {
      NatDigitsValue(n);
    }
  }

  /** The header Go reports for a missing `retry-after` is empty, and that is an error. */
  lemma AtoiRejectsEmptyAndBareSign()
    ensures Atoi("") == None
    ensures Atoi("+") == None && Atoi("-") == None
  {
  }
}
