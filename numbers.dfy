/** Base-10 integer parsing as Go's `strconv.ParseInt(s, 10, 64)` and
    `strconv.ParseUint(s, 10, 64)` do it, with the decimal formatting that is
    their inverse. Syntax errors and range errors are both a failed parse. */
module Numbers {
  import opened Text

  const Int64Min: int := -0x8000_0000_0000_0000
  const Int64Max: int := 0x7FFF_FFFF_FFFF_FFFF
  const Uint64Max: int := 0xFFFF_FFFF_FFFF_FFFF

  predicate IsDigit(c: char) {
    '0' <= c <= '9'
  }

  predicate AllDigits(s: string) {
    forall k :: 0 <= k < |s| ==> IsDigit(s[k])
  }

  function DigitValue(c: char): (d: nat)
    requires IsDigit(c)
    ensures d < 10
  {
    c as int - '0' as int
  }

  function DigitChar(d: nat): (c: char)
    requires d < 10
    ensures IsDigit(c) && DigitValue(c) == d
  {
    ('0' as int + d) as char
  }

  /** The number a string of decimal digits denotes, most significant first. */
  function DecimalValue(s: string): nat
    requires AllDigits(s)
  {
    if s == [] then 0 else DecimalValue(s[..|s| - 1]) * 10 + DigitValue(s[|s| - 1])
  }

  /** `strconv.ParseUint(s, 10, 64)`: one or more decimal digits, no sign,
      denoting at most 2^64 - 1. */
  function ParseUint64(s: string): (r: Option<nat>)
    ensures r.Some? ==> r.value <= Uint64Max
    ensures r.Some? ==> s != [] && AllDigits(s) && IsDigit(s[0]) && IsDigit(s[|s| - 1])
  {
    if s != [] && AllDigits(s) && DecimalValue(s) <= Uint64Max then Some(DecimalValue(s)) else None
  }

  /** `strconv.ParseInt(s, 10, 64)`: an optional `+` or `-`, then what ParseUint
      accepts, denoting a value in [-2^63, 2^63 - 1]. */
  function ParseInt64(s: string): (r: Option<int>)
    ensures r.Some? ==> Int64Min <= r.value <= Int64Max
    ensures r.Some? ==> s != [] && IsDigit(s[|s| - 1])
  {
    if s == [] then None
    else
      var neg := s[0] == '-';
      var digits := if s[0] == '+' || s[0] == '-' then s[1..] else s;
      match ParseUint64(digits)
      case None => None
      case Some(u) =>
        if !neg && u > Int64Max then None
        else if neg && u > -Int64Min then None
        else Some(if neg then -(u as int) else u as int)
  }

  /** The decimal digits of `n`, without leading zeros (`strconv.FormatUint(n, 10)`). */
  function FormatDecimal(n: nat): (s: string)
    ensures s != [] && AllDigits(s)
  {
    if n < 10 then [DigitChar(n)] else FormatDecimal(n / 10) + [DigitChar(n % 10)]
  }

  /** `strconv.FormatInt(n, 10)`. */
  function FormatInt(n: int): string {
    if n < 0 then "-" + FormatDecimal(-n) else FormatDecimal(n)
  }

  lemma {:induction false} DecimalValueFormat(n: nat)
    ensures DecimalValue(FormatDecimal(n)) == n
  {
    var s := FormatDecimal(n);
    if n >= 10 {
      DecimalValueFormat(n / 10);
      assert s[..|s| - 1] == FormatDecimal(n / 10);
    }
  }

  /** Formatting a value in range and parsing it back gives the value. */
  lemma ParseUint64Format(n: nat)
    requires n <= Uint64Max
    ensures ParseUint64(FormatDecimal(n)) == Some(n)
  {
    DecimalValueFormat(n);
  }

  lemma ParseInt64Format(n: int)
    requires Int64Min <= n <= Int64Max
    ensures ParseInt64(FormatInt(n)) == Some(n)
  {
    if n < 0 {
      ParseUint64Format(-n);
      assert FormatInt(n)[1..] == FormatDecimal(-n);
    } else {
      ParseUint64Format(n);
    }
  }

  /** An unsigned text that ParseUint accepts, small enough for int64, is read
      the same way by ParseInt. */
  lemma ParseIntAgreesWithUint(s: string)
    requires ParseUint64(s).Some? && ParseUint64(s).value <= Int64Max
    ensures ParseInt64(s) == ParseUint64(s)
  {
  }
}
