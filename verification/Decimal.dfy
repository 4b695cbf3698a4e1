/** `i64::to_string` and `str::parse::<i64>`. */
module Decimal {
  import opened Wrappers

  const I64_MIN: int := -0x8000_0000_0000_0000
  const I64_MAX: int := 0x7FFF_FFFF_FFFF_FFFF

  predicate InRange(n: int) {
    I64_MIN <= n <= I64_MAX
  }

  function Digits(n: nat): (s: string)
    ensures |s| > 0 && s[0] != '-' && s[0] != '+'
  {
    if n < 10 then ["0123456789"[n]] else Digits(n / 10) + ["0123456789"[n % 10]]
  }

  function ToText(n: int): string {
    if n < 0 then "-" + Digits(-n) else Digits(n)
  }

  /** The value of a non-empty string of ASCII digits. */
  function Value(s: string): Option<nat> {
    if s == "" then None
    else
      var last := s[|s| - 1];
      if !('0' <= last <= '9') then None
      else if |s| == 1 then Some(last as int - '0' as int)
      else
        match Value(s[..|s| - 1])
        case None => None
        case Some(v) => Some(10 * v + last as int - '0' as int)
  }

  /** An optional sign, at least one digit, and a value in the range of `i64`. */
  function Parse(s: string): Option<int> {
    var negative := s != "" && s[0] == '-';
    var magnitude := Value(if negative || (s != "" && s[0] == '+') then s[1..] else s);
    if magnitude.None? then None
    else
      var v: int := magnitude.value;
      var n := if negative then -v else v;
      if InRange(n) then Some(n) else None
  }

  lemma {:induction false} ValueOfDigits(n: nat)
    ensures Value(Digits(n)) == Some(n)
  {
    var s := Digits(n);
    if n >= 10 {
      ValueOfDigits(n / 10);
      assert s[..|s| - 1] == Digits(n / 10);
    }
  }

  /** Printing and parsing agree exactly on the range of `i64`. */
  lemma ParseOfText(n: int)
    ensures Parse(ToText(n)) == if InRange(n) then Some(n) else None
  {
    var s := ToText(n);
    assert s != "" && s[0] != '+' && (s[0] == '-' <==> n < 0);
    if n < 0 {
      ValueOfDigits(-n);
      assert s[1..] == Digits(-n);
    } else {
      ValueOfDigits(n);
    }
  }

  /** A digit string has a value, and nothing else has. */
  lemma {:induction false} ValueExactly(s: string)
    ensures Value(s).Some? <==> s != "" && forall i :: 0 <= i < |s| ==> '0' <= s[i] <= '9'
  {
    if |s| > 1 {
      ValueExactly(s[..|s| - 1]);
      assert s == s[..|s| - 1] + [s[|s| - 1]];
    }
  }

  /** A plus sign changes nothing, and one sign is all there may be. */
  lemma SignExactly(s: string)
    ensures Parse("+" + s) == (if s != "" && (s[0] == '-' || s[0] == '+') then None else Parse(s))
    ensures s != "" && (s[0] == '-' || s[0] == '+') ==> Parse("-" + s) == None
  {
    assert ("+" + s)[1..] == s && ("-" + s)[1..] == s;
    ValueExactly(s);
  }
}
