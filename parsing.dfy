/**
 * `ParseOptionalInt`: the model of `int(...)` wrapped in `try/except
 * ValueError`, which the game uses for guessed and correct years. An
 * integer literal here is an optional sign followed by one or more
 * decimal digits; anything else parses to `None`. CPython (3.10.7 and
 * later) also refuses, with `ValueError`, a literal of more than 4300
 * digits, so such a literal parses to `None` as well.
 */
module Parsing {
  import opened Wrappers

  predicate IsDigit(c: char) {
    '0' <= c <= '9'
  }

  predicate AllDigits(s: string) {
    forall i :: 0 <= i < |s| ==> IsDigit(s[i])
  }

  /** CPython's default `sys.get_int_max_str_digits()`: the most digits `int(str)` converts. */
  const MaxStrDigits := 4300

  /** The literal without its optional leading sign. */
  function Magnitude(s: string): (m: string)
    ensures |m| <= |s| && m == s[|s| - |m|..]
  {
    if |s| > 0 && (s[0] == '-' || s[0] == '+') then s[1..] else s
  }

  /** The accepted literal shape: `[+-]?[0-9]+`. */
  predicate IsIntLiteral(s: string) {
    |Magnitude(s)| > 0 && AllDigits(Magnitude(s))
  }

  /** A literal `int()` converts: the right shape and no more than `MaxStrDigits` digits. */
  predicate Convertible(s: string) {
    IsIntLiteral(s) && |Magnitude(s)| <= MaxStrDigits
  }

  /** The value of a string of decimal digits, most significant first. */
  function DigitsValue(s: string): nat
    requires AllDigits(s)
  {
    if s == [] then 0
    else DigitsValue(s[..|s| - 1]) * 10 + (s[|s| - 1] as int - '0' as int)
  }

  function ParseOptionalInt(s: string): (r: Option<int>)
    ensures r.Some? <==> Convertible(s)
    ensures |Magnitude(s)| > MaxStrDigits ==> r == None
    ensures r.Some? && s[0] == '-' ==> r.value <= 0
    ensures r.Some? && s[0] != '-' ==> r.value >= 0
  {
    if !Convertible(s) then None
    else
      var v: int := DigitsValue(Magnitude(s));
      Some(if s[0] == '-' then -v else v)
  }

  /** Decimal rendering of a natural number, without leading zeros. */
  function ShowNat(n: nat): (r: string)
    ensures |r| > 0 && AllDigits(r)
  {
    if n < 10 then [('0' as int + n) as char]
    else ShowNat(n / 10) + [('0' as int + n % 10) as char]
  }

  lemma {:induction false} DigitsOfShowNat(n: nat)
    ensures DigitsValue(ShowNat(n)) == n
  {
    if n >= 10 {
      var s := ShowNat(n);
      assert s[..|s| - 1] == ShowNat(n / 10);
      DigitsOfShowNat(n / 10);
    }
  }

  /**
   * Every integer, written in decimal, parses back to itself, unless its
   * numeral is longer than `int()` accepts.
   */
  lemma ParseShowRoundTrip(n: int)
    ensures n >= 0 ==> ParseOptionalInt(ShowNat(n)) == if |ShowNat(n)| <= MaxStrDigits then Some(n) else None
    ensures n <= 0 ==> ParseOptionalInt("-" + ShowNat(-n)) == if |ShowNat(-n)| <= MaxStrDigits then Some(n) else None
  {
    if n >= 0 {
      DigitsOfShowNat(n);
      ParseDigits(ShowNat(n));
    }
    if n <= 0 {
      var s := "-" + ShowNat(-n);
      assert s[1..] == ShowNat(-n);
      DigitsOfShowNat(-n);
      ParseNegativeDigits(s);
    }
  }

  /** A digit string parses to its value when it is short enough, and to nothing otherwise. */
  lemma ParseDigits(d: string)
    requires |d| > 0 && AllDigits(d)
    ensures ParseOptionalInt(d) == if |d| <= MaxStrDigits then Some(DigitsValue(d) as int) else None
  {
    assert IsDigit(d[0]);
    assert Magnitude(d) == d;
  }

  /** A minus sign before a digit string negates its value, under the same digit limit. */
  lemma ParseNegativeDigits(s: string)
    requires |s| > 1 && s[0] == '-' && AllDigits(s[1..])
    ensures ParseOptionalInt(s) == if |s| - 1 <= MaxStrDigits then Some(-(DigitsValue(s[1..]) as int)) else None
  {
    assert Magnitude(s) == s[1..];
  }
}
