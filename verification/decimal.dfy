/** Decimal text of integers, as Rust's `{}` formatting writes `u32`, `u64`
    and `i64` values, together with the reading that undoes it. */
module Decimal {
  import opened Wrappers
  import opened Text

  predicate IsDigit(c: char) {
    '0' <= c <= '9'
  }

  predicate AllDigits(s: string) {
    AllOf(s, IsDigit)
  }

  function DigitChar(d: nat): (c: char)
    requires d < 10
    ensures IsDigit(c) && c as int - '0' as int == d
  {
    ('0' as int + d) as char
  }

  /** The shortest decimal spelling of n: never empty, and without leading zeros. */
  function NatToString(n: nat): (s: string)
    ensures |s| >= 1 && AllDigits(s)
    ensures s[0] == '0' <==> n == 0
    ensures n == 0 ==> s == "0"
    decreases n
  {
    if n < 10 then [DigitChar(n)] else NatToString(n / 10) + [DigitChar(n % 10)]
  }

  /** The value of a string of decimal digits (most significant digit first). */
  function ParseNat(s: string): (n: nat)
    requires AllDigits(s)
  {
    if s == [] then 0 else 10 * ParseNat(s[..|s| - 1]) + (s[|s| - 1] as int - '0' as int)
  }

  /** Reading the decimal text of n gives back n. */
  lemma {:induction false} ParseNatToString(n: nat)
    ensures ParseNat(NatToString(n)) == n
    decreases n
  {
    if n >= 10 {
      ParseNatToString(n / 10);
      var s := NatToString(n);
      assert s[..|s| - 1] == NatToString(n / 10);
    }
  }

  /** Rust's `{}` formatting of a signed integer: a minus sign before the magnitude. */
  function IntToString(i: int): (s: string)
    ensures |s| >= 1
    ensures s[0] == '-' <==> i < 0
  {
    if i < 0 then "-" + NatToString(-i) else NatToString(i)
  }

  /** Reads an optionally negated decimal number spanning all of s. */
  function ParseInt(s: string): (r: Option<int>)
    ensures r.Some? ==> |s| >= 1
  {
    if |s| >= 2 && s[0] == '-' && AllDigits(s[1..]) then Some(0 - ParseNat(s[1..]) as int)
    else if |s| >= 1 && AllDigits(s) then Some(ParseNat(s))
    else None
  }

  /** Reading the text of a signed integer gives back that integer. */
  lemma ParseIntToString(i: int)
    ensures ParseInt(IntToString(i)) == Some(i)
  {
    var s := IntToString(i);
    if i < 0 {
      var t := NatToString(-i);
      ParseNatToString(-i);
      assert s == "-" + t && s[1..] == t;
      assert AllDigits(s[1..]);
    } else {
      ParseNatToString(i);
      assert s == NatToString(i) && s[0] != '-';
    }
  }

  /** Reads the decimal number at the front of s, returning it and what follows. */
  function TakeNat(s: string): (r: Option<(nat, string)>)
    ensures r.Some? ==> |r.value.1| < |s|
  {
    var k := PrefixWhile(s, IsDigit);
    if k == 0 then None else Some((ParseNat(s[..k]), s[k..]))
  }

  /** The number written at the front of a string is read back, up to the
      first character that is not a digit. */
  lemma TakeNatOf(n: nat, rest: string)
    requires rest == [] || !IsDigit(rest[0])
    ensures TakeNat(NatToString(n) + rest) == Some((n, rest))
  {
    var s := NatToString(n);
    PrefixWhileConcat(s, rest, IsDigit);
    assert (s + rest)[..|s|] == s;
    assert (s + rest)[|s|..] == rest;
    ParseNatToString(n);
  }
}
