/** Python's `str(n)` for integers, which the script uses both to render the
    day count of a status and to build the next page URI, together with the
    parser that inverts it. */
module Decimal {

  datatype Option<T> = None | Some(value: T)

  predicate IsDigit(c: char) {
    '0' <= c <= '9'
  }

  function DigitChar(d: nat): (c: char)
    requires d < 10
    ensures IsDigit(c) && c as int - '0' as int == d
  {
    (('0' as int) + d) as char
  }

  /** Decimal digits of `n`, most significant first, without leading zeros. */
  function NatToDecimal(n: nat): (s: string)
    ensures 1 <= |s| && IsDigit(s[0])
  {
    if n < 10 then [DigitChar(n)] else NatToDecimal(n / 10) + [DigitChar(n % 10)]
  }

  /** `str(n)`: a minus sign for negative numbers, then the digits of `|n|`. */
  function IntToDecimal(n: int): (s: string)
    ensures 1 <= |s| && (s[0] == '-' <==> n < 0)
  {
    if n < 0 then "-" + NatToDecimal(-n) else NatToDecimal(n)
  }

  /** The value of a non-empty string of decimal digits; None for anything else. */
  function ParseNat(s: string): Option<nat>
  {
    if |s| == 0 || !IsDigit(s[|s| - 1]) then None
    else
      var d := s[|s| - 1] as int - '0' as int;
      if |s| == 1 then Some(d)
      else match ParseNat(s[..|s| - 1])
        case None => None
        case Some(m) => Some(10 * m + d)
  }

  /** An optional minus sign followed by a natural number. */
  function ParseInt(s: string): Option<int> {
    if 1 <= |s| && s[0] == '-' then
      match ParseNat(s[1..])
      case None => None
      case Some(m) => Some(0 - m as int)
    else
      match ParseNat(s)
      case None => None
      case Some(m) => Some(m)
  }

  lemma {:induction false} ParseNatOfDecimal(n: nat)
    ensures ParseNat(NatToDecimal(n)) == Some(n)
  {
    var s := NatToDecimal(n);
    if n >= 10 {
      ParseNatOfDecimal(n / 10);
      assert s[..|s| - 1] == NatToDecimal(n / 10);
    }
  }

  /** Parsing undoes rendering, for every integer. */
  lemma ParseIntOfDecimal(n: int)
    ensures ParseInt(IntToDecimal(n)) == Some(n)
  {
    if n < 0 {
      var d := NatToDecimal(-n);
      ParseNatOfDecimal(-n);
      assert IntToDecimal(n) == "-" + d;
      assert ("-" + d)[1..] == d;
    } else {
      var d := NatToDecimal(n);
      ParseNatOfDecimal(n);
      assert IntToDecimal(n) == d && d[0] != '-';
    }
  }

  /** Distinct numbers render as distinct strings. */
  lemma NatToDecimalInjective(m: nat, n: nat)
    requires NatToDecimal(m) == NatToDecimal(n)
    ensures m == n
  {
    ParseNatOfDecimal(m);
    ParseNatOfDecimal(n);
  }
}
