/**
 * The `/search` handler of src/index.ts, as far as the `limit` parameter goes:
 * `limit` must match `^[0-9]+$` (one or more ASCII digits and nothing else) and
 * is then converted with `Number`, which for such a string is its decimal
 * value. The value goes to `searchFlights` unchanged: no clamping, and `"0"`
 * asks for an empty result. Any failed validation is caught and rethrown as a
 * status-500 error.
 *
 * The other query parameters are taken as the handler would see them after
 * their own parsing: `departureAirport` and `preferredCarrier` as optional
 * strings, `departure` as an optional instant (absent when the parameter is
 * missing or is not an ISO-8601 datetime), and `maxDuration` as the optional
 * raw query string: `z.number()` accepts no string, so a request that carries
 * `maxDuration` at all fails validation.
 */
module SearchEndpoint {
  import opened Wrappers
  import opened FlightTypes
  import FlightService

  predicate IsDigit(c: char)
  {
    '0' <= c <= '9'
  }

  /** `INTEGER_REGEX.test(s)` for `INTEGER_REGEX = /^[0-9]+$/`. */
  predicate MatchesIntegerRegex(s: string)
  {
    |s| > 0 && forall i :: 0 <= i < |s| ==> IsDigit(s[i])
  }

  function DigitValue(c: char): (d: nat)
    requires IsDigit(c)
    ensures d <= 9
  {
    c as int - '0' as int
  }

  function Pow10(n: nat): (p: nat)
    ensures p > 0
  {
    if n == 0 then 1 else 10 * Pow10(n - 1)
  }

  /** The decimal value of a string of digits, most significant digit first; `n` digits stay below 10^n. */
  function DecimalValue(s: string): (v: nat)
    requires forall i :: 0 <= i < |s| ==> IsDigit(s[i])
    ensures v < Pow10(|s|)
  {
    if s == [] then 0
    else
      var init := DecimalValue(s[..|s| - 1]);
      assert init * 10 <= (Pow10(|s| - 1) - 1) * 10;
      init * 10 + DigitValue(s[|s| - 1])
  }

  /** Why `searchParams.parse` rejects the `limit` field. */
  datatype LimitError = LimitMissing | LimitNotInteger

  /**
   * The `limit` field of `searchParams`: `z.string()`, then the regex refinement,
   * then `Number(x)`. `None` is a query without `limit`.
   */
  function ParseLimit(limit: Option<string>): (r: Result<nat, LimitError>)
    ensures r.Success? <==> limit.Some? && MatchesIntegerRegex(limit.value)
    ensures r.Success? ==> r.value == DecimalValue(limit.value)
    ensures r == Failure(LimitMissing) <==> limit.None?
  {
    if limit.None? then Failure(LimitMissing)
    else if !MatchesIntegerRegex(limit.value) then Failure(LimitNotInteger)
    else Success(DecimalValue(limit.value))
  }

  /** The shortest decimal rendering of `n` (what `String(n)` gives). */
  function DecimalString(n: nat): (s: string)
    ensures MatchesIntegerRegex(s)
    ensures |s| > 1 ==> s[0] != '0'
  {
    if n < 10 then ['0' + n as char] else DecimalString(n / 10) + ['0' + (n % 10) as char]
  }

  /** Round trip: the rendering of any `n` is accepted and converts back to `n`. */
  lemma {:induction false} ParseDecimalString(n: nat)
    ensures ParseLimit(Some(DecimalString(n))) == Success(n)
  {
    var s := DecimalString(n);
    if n < 10 {
      assert s[..0] == [];
      assert DigitValue(s[0]) == n;
    } else {
      ParseDecimalString(n / 10);
      assert s[..|s| - 1] == DecimalString(n / 10);
      assert DigitValue(s[|s| - 1]) == n % 10;
      assert DecimalValue(s) == (n / 10) * 10 + n % 10;
    }
  }

  /** A leading zero does not change the value, so `"007"` converts to 7. */
  lemma {:induction false} LeadingZeroIgnored(s: string)
    requires forall i :: 0 <= i < |s| ==> IsDigit(s[i])
    ensures DecimalValue("0" + s) == DecimalValue(s)
  {
    if s != [] {
      var init := s[..|s| - 1];
      LeadingZeroIgnored(init);
      assert ("0" + s)[..|s|] == "0" + init;
    }
  }

  /** Accepted and rejected strings: a sign, a decimal point, blanks or no characters at all are refused. */
  lemma LimitExamples()
    ensures ParseLimit(Some("0")) == Success(0)
    ensures ParseLimit(Some("007")) == Success(7)
    ensures ParseLimit(Some("42")) == Success(42)
    ensures ParseLimit(Some("-1")) == Failure(LimitNotInteger)
    ensures ParseLimit(Some("1.5")) == Failure(LimitNotInteger)
    ensures ParseLimit(Some(" 1")) == Failure(LimitNotInteger)
    ensures ParseLimit(Some("1\n")) == Failure(LimitNotInteger)
    ensures ParseLimit(Some("")) == Failure(LimitNotInteger)
    ensures ParseLimit(None) == Failure(LimitMissing)
  {
    LeadingZeroIgnored("07");
    LeadingZeroIgnored("7");
    assert "0" + "07" == "007" && "0" + "7" == "07";
    assert "42"[..1] == "4";
    assert !IsDigit("-1"[0]) && !IsDigit("1.5"[1]) && !IsDigit(" 1"[0]) && !IsDigit("1\n"[1]);
  }

  /** What the handler answers: the search result as JSON, or an HTTP error. */
  datatype Response = Found(result: seq<ScoredFlight>) | HttpError(statusCode: int)

  /** Whether `searchParams.parse` accepts the query. */
  predicate QueryValid(limit: Option<string>, departureAirport: Option<string>, departure: Option<int>, maxDuration: Option<string>)
  {
    && ParseLimit(limit).Success?
    && departureAirport.Some?
    && departure.Some?
    && maxDuration.None?
  }

  /**
   * The `/search` event handler. A query that fails validation ends in a
   * status-500 error, never a 4xx; a valid one is answered with the search,
   * whose first argument is the converted `limit`, unchanged.
   */
  method HandleSearch(
    service: FlightService.FlightService,
    limit: Option<string>,
    departureAirport: Option<string>,
    departure: Option<int>,
    maxDuration: Option<string>,
    preferredCarrier: Option<string>,
    haversine: (Coord, Coord) -> real)
    returns (response: Response)
    ensures response.HttpError? <==> !QueryValid(limit, departureAirport, departure, maxDuration)
    ensures response.HttpError? ==> response.statusCode == 500
    ensures response.Found? ==> response.result == FlightService.Search(
      service.flights,
      DecimalValue(limit.value),
      FlightService.Query(departureAirport.value, departure.value, None, preferredCarrier),
      haversine)
  {
    var parsedLimit := ParseLimit(limit);
    if parsedLimit.Failure? || departureAirport.None? || departure.None? || maxDuration.Some? {
      return HttpError(500);
    }
    var result := service.SearchFlights(parsedLimit.value, departureAirport.value, departure.value, None, preferredCarrier, haversine);
    response := Found(result);
  }

  /** `limit=0` is accepted and answered with no flights at all. */
  lemma ZeroLimitFindsNothing(flights: seq<Flight>, q: FlightService.Query, haversine: (Coord, Coord) -> real)
    ensures ParseLimit(Some("0")) == Success(0)
    ensures FlightService.Search(flights, ParseLimit(Some("0")).value, q, haversine) == []
  {
    assert DecimalValue("0") == 0;
    FlightService.SearchLength(flights, 0, q, haversine);
  }
}
