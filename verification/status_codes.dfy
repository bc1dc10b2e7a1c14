/** Reading an HTTP status code out of the `StatusCode` column, and the error
    classification built on it (`is_error_val` and the SQL `CAST ... >= 400`). */
module StatusCodes {
  import opened Wrappers

  predicate IsDigit(c: char) {
    '0' <= c <= '9'
  }

  /** A non-empty run of ASCII decimal digits. */
  predicate IsDigits(s: string) {
    |s| > 0 && forall i :: 0 <= i < |s| ==> IsDigit(s[i])
  }

  function DigitValue(c: char): nat
    requires IsDigit(c)
  {
    (c as int) - ('0' as int)
  }

  function DigitChar(d: nat): char
    requires d < 10
  {
    ((('0' as int) + d) as char)
  }

  /** The value of a run of decimal digits, most significant first. */
  function DigitsValue(s: string): nat
    requires forall i :: 0 <= i < |s| ==> IsDigit(s[i])
  {
    if s == [] then 0 else DigitsValue(s[..|s| - 1]) * 10 + DigitValue(s[|s| - 1])
  }

  /** The decimal rendering of `n`, without leading zeros. */
  function Decimal(n: nat): (s: string)
    ensures IsDigits(s)
  {
    if n < 10 then [DigitChar(n)] else Decimal(n / 10) + [DigitChar(n % 10)]
  }

  /** Reads an optionally signed decimal integer; anything else does not parse. */
  function ParseStatus(s: string): (r: Option<int>)
  {
    if |s| > 0 && s[0] == '-' && IsDigits(s[1..]) then Some(-(DigitsValue(s[1..]) as int))
    else if |s| > 0 && s[0] == '+' && IsDigits(s[1..]) then Some(DigitsValue(s[1..]))
    else if IsDigits(s) then Some(DigitsValue(s))
    else None
  }

  /** The text a status code is stored as. */
  function FormatStatus(n: int): string {
    if n < 0 then "-" + Decimal(-n) else Decimal(n)
  }

  lemma {:induction false} DecimalValue(n: nat)
    ensures DigitsValue(Decimal(n)) == n
  {
    if n >= 10 {
      var s := Decimal(n);
      assert s[..|s| - 1] == Decimal(n / 10);
      DecimalValue(n / 10);
    }
  }

  /** Reading back a stored status code gives the code itself. */
  lemma ParseFormat(n: int)
    ensures ParseStatus(FormatStatus(n)) == Some(n)
  {
    if n < 0 {
      var s := FormatStatus(n);
      assert s[1..] == Decimal(-n);
      DecimalValue(-n);
    } else {
      DecimalValue(n);
    }
  }

  /** A row is an error when its status parses as an integer of at least 400;
      a status that does not parse is not an error. */
  predicate IsError(status: string) {
    match ParseStatus(status)
    case Some(code) => code >= 400
    case None => false
  }

  /** The classification of a stored status code is exactly `code >= 400`. */
  lemma IsErrorOfCode(n: int)
    ensures IsError(FormatStatus(n)) <==> n >= 400
  {
    ParseFormat(n);
  }

  /** Text that is not a number is never an error. */
  lemma UnparsableIsNotError(status: string)
    requires ParseStatus(status).None?
    ensures !IsError(status)
  {
  }
}
