/**
 * The five request handlers of the holiday API. Each validates its parameters,
 * asks the upstream provider for the years it needs, and answers with one of
 * four outcomes. A Response also records which years were requested upstream,
 * so that "no request on a validation failure" is part of each contract.
 */
module QueryHandlers {
  import opened Wrappers
  import opened Calendar
  import opened HolidaySource
  import opened DateValidator
  import opened HolidayAggregator

  /** The JSON bodies of the successful answers (the `success: true` flag is implicit). */
  datatype Payload =
    | YearPayload(year: int, totalCount: int, holidays: seq<Holiday>, holidaysByMonth: map<int, seq<Holiday>>)
    | MonthPayload(year: int, month: int, monthName: string, count: int, holidays: seq<Holiday>)
    | UpcomingPayload(count: int, upcoming: seq<UpcomingHoliday>)
    | CheckPayload(date: string, isHoliday: bool, holiday: Option<Holiday>)
    | TypesPayload(year: int, types: seq<string>, holidaysByType: map<string, seq<Holiday>>)

  /** Status 400, 404, 500 and 200 answers. */
  datatype Outcome =
    | BadRequest(error: string)
    | NotFound(error: string)
    | ServerError(error: string)
    | Ok(payload: Payload)

  /** An answer and the years requested upstream while producing it, in order. */
  datatype Response = Response(outcome: Outcome, fetched: seq<int>)

  const NoDataForYear := "No holiday data available for this year"
  const FetchFailed := "Failed to fetch holidays"
  const UpcomingFetchFailed := "Failed to fetch upcoming holidays"
  const CheckFailed := "Failed to check holiday status"
  const TypesFetchFailed := "Failed to fetch holiday types"

  /** GET /holidays/{year}: the year's list, its size and its buckets by month. */
  method YearWise(year: Option<int>, upstream: Upstream) returns (resp: Response)
    ensures resp.outcome.BadRequest? <==> resp.fetched == []
    ensures CheckYear(year).Invalid? ==> resp.outcome == BadRequest(CheckYear(year).message)
    ensures var c := CheckYear(year);
      c.Valid? ==> resp.fetched == [c.value]
    ensures var c := CheckYear(year);
      c.Valid? && upstream(c.value).UpstreamNotFound? ==> resp.outcome == NotFound(NoDataForYear)
    ensures var c := CheckYear(year);
      c.Valid? && upstream(c.value).UpstreamUnavailable? ==> resp.outcome == ServerError(FetchFailed)
    ensures var c := CheckYear(year);
      c.Valid? && upstream(c.value).Fetched? ==>
        var hs := upstream(c.value).holidays;
        && resp.outcome.Ok? && resp.outcome.payload.YearPayload?
        && resp.outcome.payload.year == c.value
        && resp.outcome.payload.totalCount == |hs|
        && resp.outcome.payload.holidays == hs
        && IsMonthGrouping(hs, resp.outcome.payload.holidaysByMonth)
  {
    var checked := CheckYear(year);
    if checked.Invalid? {
      return Response(BadRequest(checked.message), []);
    }
    var y := checked.value;
    var fetch := upstream(y);
    match fetch {
      case UpstreamNotFound =>
        resp := Response(NotFound(NoDataForYear), [y]);
      case UpstreamUnavailable =>
        resp := Response(ServerError(FetchFailed), [y]);
      case Fetched(hs) =>
        var byMonth := GroupByMonth(hs);
        resp := Response(Ok(YearPayload(y, |hs|, hs, byMonth)), [y]);
    }
  }

  /** GET /holidays/{year}/{month}: the month's holidays and the month's name. */
  method SpecificMonth(year: Option<int>, month: Option<int>, upstream: Upstream) returns (resp: Response)
    ensures resp.outcome.BadRequest? <==> resp.fetched == []
    ensures !resp.outcome.NotFound?
    ensures CheckYearAndMonth(year, month).Invalid? ==>
      resp.outcome == BadRequest(CheckYearAndMonth(year, month).message)
    ensures var c := CheckYearAndMonth(year, month);
      c.Valid? ==> resp.fetched == [c.value.0]
    ensures var c := CheckYearAndMonth(year, month);
      c.Valid? && !upstream(c.value.0).Fetched? ==> resp.outcome == ServerError(FetchFailed)
    ensures var c := CheckYearAndMonth(year, month);
      c.Valid? && upstream(c.value.0).Fetched? ==>
        var (y, m, hs) := (c.value.0, c.value.1, upstream(c.value.0).holidays);
        resp.outcome == Ok(MonthPayload(y, m, MonthNames[m - 1], |OfMonth(hs, m)|, OfMonth(hs, m)))
  {
    var checked := CheckYearAndMonth(year, month);
    if checked.Invalid? {
      return Response(BadRequest(checked.message), []);
    }
    var (y, m) := checked.value;
    var fetch := upstream(y);
    if fetch.Fetched? {
      var monthHolidays := OfMonth(fetch.holidays, m);
      resp := Response(Ok(MonthPayload(y, m, MonthNames[m - 1], |monthHolidays|, monthHolidays)), [y]);
    } else {
      resp := Response(ServerError(FetchFailed), [y]);
    }
  }

  /**
   * GET /holidays/upcoming: both years are requested (in parallel in the
   * source); the answer is an error unless both arrive.
   */
  method UpcomingHolidays(count: Option<int>, currentYear: int, today: Date, upstream: Upstream)
    returns (resp: Response)
    ensures resp.fetched == [currentYear, currentYear + 1]
    ensures resp.outcome.Ok? || resp.outcome.ServerError?
    ensures var (first, second) := (upstream(currentYear), upstream(currentYear + 1));
      first.Fetched? && second.Fetched? ==>
        var u := Upcoming(first.holidays + second.holidays, today, UpcomingCount(count));
        resp.outcome == Ok(UpcomingPayload(|u|, u))
    ensures !upstream(currentYear).Fetched? || !upstream(currentYear + 1).Fetched? ==>
      resp.outcome == ServerError(UpcomingFetchFailed)
  {
    var n := UpcomingCount(count);
    var first, second := upstream(currentYear), upstream(currentYear + 1);
    if first.Fetched? && second.Fetched? {
      var all := first.holidays + second.holidays;
      var upcoming := Upcoming(all, today, n);
      resp := Response(Ok(UpcomingPayload(|upcoming|, upcoming)), [currentYear, currentYear + 1]);
    } else {
      resp := Response(ServerError(UpcomingFetchFailed), [currentYear, currentYear + 1]);
    }
  }

  /**
   * GET /holidays/check/{date}: parsed is the runtime's reading of date
   * (None when it is not a date); its year selects the list to search.
   */
  method SpecificDays(date: string, parsed: Option<Date>, upstream: Upstream) returns (resp: Response)
    ensures resp.outcome.BadRequest? <==> resp.fetched == []
    ensures !resp.outcome.NotFound?
    ensures CheckDate(parsed).Invalid? ==> resp.outcome == BadRequest(CheckDate(parsed).message)
    ensures var c := CheckDate(parsed);
      c.Valid? ==> resp.fetched == [c.value.year]
    ensures var c := CheckDate(parsed);
      c.Valid? && !upstream(c.value.year).Fetched? ==> resp.outcome == ServerError(CheckFailed)
    ensures var c := CheckDate(parsed);
      c.Valid? && upstream(c.value.year).Fetched? ==>
        var found := FindByDate(upstream(c.value.year).holidays, date);
        resp.outcome == Ok(CheckPayload(date, found.Some?, found))
  {
    var checked := CheckDate(parsed);
    if checked.Invalid? {
      return Response(BadRequest(checked.message), []);
    }
    var y := checked.value.year;
    var fetch := upstream(y);
    if fetch.Fetched? {
      var holiday := FindByDate(fetch.holidays, date);
      resp := Response(Ok(CheckPayload(date, holiday.Some?, holiday)), [y]);
    } else {
      resp := Response(ServerError(CheckFailed), [y]);
    }
  }

  /** GET /holidays/{year}/types: the type keys in creation order and the buckets by type. */
  method HolidaysType(year: Option<int>, upstream: Upstream) returns (resp: Response)
    ensures resp.outcome.BadRequest? <==> resp.fetched == []
    ensures !resp.outcome.NotFound?
    ensures CheckTypesYear(year).Invalid? ==> resp.outcome == BadRequest(CheckTypesYear(year).message)
    ensures var c := CheckTypesYear(year);
      c.Valid? ==> resp.fetched == [c.value]
    ensures var c := CheckTypesYear(year);
      c.Valid? && !upstream(c.value).Fetched? ==> resp.outcome == ServerError(TypesFetchFailed)
    ensures var c := CheckTypesYear(year);
      c.Valid? && upstream(c.value).Fetched? ==>
        && resp.outcome.Ok? && resp.outcome.payload.TypesPayload?
        && resp.outcome.payload.year == c.value
        && IsTypeGrouping(upstream(c.value).holidays, resp.outcome.payload.types, resp.outcome.payload.holidaysByType)
  {
    var checked := CheckTypesYear(year);
    if checked.Invalid? {
      return Response(BadRequest(checked.message), []);
    }
    var y := checked.value;
    var fetch := upstream(y);
    if fetch.Fetched? {
      var types, typeGroups := GroupByType(fetch.holidays);
      resp := Response(Ok(TypesPayload(y, types, typeGroups)), [y]);
    } else {
      resp := Response(ServerError(TypesFetchFailed), [y]);
    }
  }
}
