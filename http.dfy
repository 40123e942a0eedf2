/**
  The exceptions the service raises, the outcome of an operation that may
  raise one, and how the web framework turns an escaping exception into a
  response.
 */
module Http {

  datatype Option<T> = None | Some(value: T)

  /** The exceptions that the modelled code raises or lets through. */
  datatype Exception =
    | HttpException(status: int, detail: string)
      // raised explicitly by the handlers
    | DateParseError
      // the ValueError of strptime; it only ever escapes as a bare 500, so
      // its message, which depends on the input, is not modelled
    | ValueError(message: string)
      // any other ValueError, with the text str(e) gives
    | OverflowError
      // datetime arithmetic past year 9999
    | IndexError
      // indexing a list past its end
    | NoLengthError
      // the TypeError of len(None)

  /** An operation either returns a value or raises an exception. */
  datatype Result<T> = Ok(value: T) | Raise(exception: Exception)

  /** Decimal digits of a natural number, as Python's str() writes them. */
  function NatToString(n: nat): (s: string)
    ensures |s| >= 1
    ensures forall i :: 0 <= i < |s| ==> '0' <= s[i] <= '9'
    decreases n
  {
    if n < 10 then [DigitChar(n)] else NatToString(n / 10) + [DigitChar(n % 10)]
  }

  function DigitChar(d: nat): (c: char)
    requires d < 10
    ensures '0' <= c <= '9' && c as int - '0' as int == d
  {
    ('0' as int + d) as char
  }

  function IntToString(i: int): string {
    if i < 0 then "-" + NatToString(-i) else NatToString(i)
  }

  /** Python's str(e) for each kind of exception; for an HTTPException the
      framework's exception class writes "<status>: <detail>". */
  function Str(e: Exception): (s: string)
    ensures e.HttpException? ==> IntToString(e.status) + ": " <= s
    ensures e.HttpException? ==> s[|IntToString(e.status)| + 2..] == e.detail
  {
    match e
    case HttpException(status, detail) => IntToString(status) + ": " + detail
    case DateParseError => "" // placeholder: strptime's message is not modelled
    case ValueError(message) => message
    case OverflowError => "date value out of range"
    case IndexError => "list index out of range"
    case NoLengthError => "object of type 'NoneType' has no len()"
  }

  /** The `except Exception as e: raise HTTPException(status_code=500,
      detail=str(e))` clause that wraps every validator and the booking route. */
  function Reraise500(e: Exception): (r: Exception)
    ensures r.HttpException? && r.status == 500
    ensures r.detail == Str(e)
  {
    HttpException(500, Str(e))
  }

  /** Whether FastAPI sends a body with a response of this status: not for
      the informational statuses below 200, nor for 204, 205 and 304. */
  predicate BodyAllowed(status: int)
  {
    !(status < 200 || status == 204 || status == 205 || status == 304)
  }

  /** What the client receives when an exception escapes a route: an
      HTTPException keeps its status, and its detail when that status may
      carry a body; anything else becomes a bare 500. */
  function Respond(e: Exception): (r: (int, string))
    ensures e.HttpException? ==> r.0 == e.status
    ensures e.HttpException? && BodyAllowed(e.status) ==> r.1 == e.detail
    ensures e.HttpException? && !BodyAllowed(e.status) ==> r.1 == ""
    ensures !e.HttpException? ==> r == (500, "Internal Server Error")
  {
    match e
    case HttpException(status, detail) => (status, if BodyAllowed(status) then detail else "")
    case _ => (500, "Internal Server Error")
  }

  /** The number a string of decimal digits denotes. */
  function DigitsValue(s: string): int
  {
    if s == [] then 0 else DigitsValue(s[..|s| - 1]) * 10 + (s[|s| - 1] as int - '0' as int)
  }

  /** Decoding NatToString's digits gives the number back: the status code
      written into a detail is recoverable from it. */
  lemma {:induction false} NatToStringRoundTrip(n: nat)
    ensures DigitsValue(NatToString(n)) == n
    decreases n
  {
    if n >= 10 {
      NatToStringRoundTrip(n / 10);
      var s := NatToString(n / 10) + [DigitChar(n % 10)];
      assert s[..|s| - 1] == NatToString(n / 10);
    }
  }
}
