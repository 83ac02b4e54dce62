# Public holidays API: the query layer

This project models the query layer of a small public-holidays web service.
The service answers five queries about the public holidays of India. Every
query checks its parameters, asks an upstream holiday provider for one or two
years of holiday records, and builds a view of those records:

- **holidays of a year**: the year's list, how many there are, and the holidays
  bucketed by month;
- **holidays of one month**: the month's holidays and the month's English name;
- **upcoming holidays**: the holidays of this year and next that fall today or
  later, sorted by date, cut to `count` entries, each with the number of days
  until it;
- **is this date a holiday**: the first holiday whose date string equals the
  requested date;
- **holidays by type**: the holidays bucketed by each type label they carry, with
  the labels listed in order of first appearance.

Modules:

- `Wrappers`: `Option`.
- `Calendar`: the Gregorian calendar dates the records carry. It defines a day
  number, proves that the day number orders dates as the calendar does, and
  proves that the `YYYY-MM-DD` rendering and its strict reading invert each other.
- `Sequences`: the array operations the views use, with their facts. These are
  `filter`, a stable sort by a numeric key, `slice(0, n)` with JavaScript's
  negative-end rule, and first-appearance de-duplication.
- `HolidaySource`: the holiday record, and the upstream provider as a function
  from a year to the outcome of the request for that year.
- `DateValidator`: the parameter checks and their exact error messages.
- `HolidayAggregator`: the five views, with the loops that build the month and
  type buckets written as methods over maps.
- `QueryHandlers`: the five handlers. Each returns its outcome (400, 404, 500 or
  a payload) and the list of years it requested upstream.

## Model

| member | source | states |
|---|---|---|
| DateValidator.CheckYear | controllers/api.controller.js:9-18 | the year is accepted exactly when it is numeric and within 1900..2100; a non-numeric year gives "Valid year is required", an out-of-range one gives "Year must be between 1900 and 2100" |
| DateValidator.CheckYearAndMonth | controllers/api.controller.js:62-81 | accepted exactly when both are numeric, the year is within 1900..2100 and the month within 1..12; the three errors are tried in the source's order, each with its message |
| DateValidator.CheckTypesYear | controllers/api.controller.js:200-204 | the types query accepts any numeric year, with no range check; otherwise "Valid year is required" |
| DateValidator.CheckDate | controllers/api.controller.js:165-171 | a date the runtime cannot parse gives "Invalid date format. Use YYYY-MM-DD"; a parsed date is passed on unchanged |
| DateValidator.UpcomingCount | controllers/api.controller.js:117 | the count is never 0; it is the parsed count when that is a non-zero number, and otherwise the default 5 |
| HolidayAggregator.GroupByMonth | controllers/api.controller.js:24-31 | there is a bucket for exactly the months that occur in the list, and bucket m is the list's month-m holidays in list order |
| HolidayAggregator.MonthBucketsPartition | controllers/api.controller.js:24-38 | the month buckets, joined, hold every holiday of the year's list once, so together they are as large as totalCount |
| HolidayAggregator.MonthViewsAgree | controllers/api.controller.js:24-31 | the month query's list for month m equals the year query's bucket m, or is empty when that bucket does not exist |
| HolidayAggregator.OfMonthIsMonthFilter | controllers/api.controller.js:87-89 | the month's holidays are an order-preserving subsequence of the year's list; it keeps every copy of a month-m holiday and nothing else |
| HolidayAggregator.UpcomingSelection | controllers/api.controller.js:135-144 | the upcoming list has min(count, number of holidays on or after today) entries (the JavaScript slice rule when count is negative); each entry is a fetched holiday dated today or later; entries are in date order; each daysUntil is the non-negative day distance from today |
| HolidayAggregator.UpcomingTiesKeepOrder | controllers/api.controller.js:136-137 | sorting is stable: holidays on the same date keep the order they have in this year's list followed by next year's |
| HolidayAggregator.DaysUntilMeaning | controllers/api.controller.js:139-143 | for valid dates, daysUntil is 0 exactly for a holiday dated today, and is negative exactly for a date before today |
| HolidayAggregator.UpcomingExample | controllers/api.controller.js:135-144 | on 2024-01-01, holidays dated 2024-01-01, 2023-12-31 and 2024-01-10 give the first and third, with 0 and 9 days to go |
| HolidayAggregator.FindByDate | controllers/api.controller.js:178 | nothing is found exactly when no holiday's date string equals the requested one; otherwise the result is the first holiday whose date string equals it |
| HolidayAggregator.FindByIsoDate | controllers/api.controller.js:178-184 | for a well-formed YYYY-MM-DD request and valid upstream dates, isHoliday holds exactly when some holiday is dated that day, and the holiday returned is dated that day |
| HolidayAggregator.GroupByType | controllers/api.controller.js:210-218 | the type keys are the distinct labels in order of first appearance; there is a bucket for exactly those keys; bucket t lists, in list order, each holiday once per occurrence of t among its types |
| HolidayAggregator.AddLabels | controllers/api.controller.js:212-217 | processing one more holiday, a bucket is created for each of its labels not seen before and the holiday is pushed once per label, so the grouping of the list so far becomes the grouping of the list with that holiday |
| HolidayAggregator.InTypeBucket | controllers/api.controller.js:211-216 | a holiday is in bucket t exactly when it is in the list and carries label t |
| HolidayAggregator.TypeBucketLength | controllers/api.controller.js:211-216 | bucket t is as long as the number of occurrences of t among all labels |
| HolidayAggregator.TypeKeysAreUnion | controllers/api.controller.js:223 | the listed types are exactly the labels some holiday carries, each listed once |
| HolidayAggregator.TypeBucketsTotal | controllers/api.controller.js:210-218 | the buckets hold, between them, one entry per type label of the year's list |
| QueryHandlers.YearWise | controllers/api.controller.js:5-53 | a rejected year gives 400 and requests nothing; otherwise exactly that year is requested; upstream 404 gives 404 "No holiday data available for this year"; any other failure gives 500 "Failed to fetch holidays"; success gives the year, totalCount equal to the list's length, the list itself and its month grouping |
| QueryHandlers.SpecificMonth | controllers/api.controller.js:58-110 | rejected parameters give 400 and request nothing; any upstream failure, a 404 included, gives 500 "Failed to fetch holidays"; success gives the year, the month, MonthNames[month-1], the count and the month's holidays |
| QueryHandlers.UpcomingHolidays | controllers/api.controller.js:115-157 | the current and next year are both requested; unless both arrive the answer is 500 "Failed to fetch upcoming holidays"; otherwise it is the upcoming view of the two lists joined, with its length as count |
| QueryHandlers.SpecificDays | controllers/api.controller.js:162-192 | an unparsable date gives 400 and requests nothing; otherwise the parsed date's year is requested; a failure gives 500 "Failed to check holiday status"; success gives the date string, isHoliday exactly when the lookup found a holiday, and that holiday or null |
| QueryHandlers.HolidaysType | controllers/api.controller.js:196-232 | a non-numeric year gives 400 and requests nothing; a failure gives 500 "Failed to fetch holiday types"; success gives the year and the type grouping of the list |
| Calendar.DayNumberOrder | controllers/api.controller.js:136-137 | for valid dates, comparing day numbers is the calendar order, and equal day numbers mean the same date; this is what makes filtering and sorting by day number the source's filtering and sorting by date |
| Calendar.ParseToIso | controllers/api.controller.js:178 | rendering a valid date as YYYY-MM-DD and reading it back gives the date |
| Calendar.ToIsoOfParse | controllers/api.controller.js:178 | a string that reads as a date is exactly that date's YYYY-MM-DD rendering |
| Calendar.ToIsoInjective | controllers/api.controller.js:178 | distinct valid dates have distinct YYYY-MM-DD strings, so string equality in the lookup is date equality |
| Sequences.SortStable | controllers/api.controller.js:137 | the sort by key keeps the input order among elements with the same key |
| Sequences.SortByKey | controllers/api.controller.js:137 | the sorted list is ordered by key, is a permutation of the input, and has its length |
| Sequences.SliceTo | controllers/api.controller.js:138 | `slice(0, n)` is a prefix whose length is min(n, length), or length + n but at least 0 when n is negative |
| Sequences.FilterOfFilter | controllers/api.controller.js:136-137 | filtering by a condition and then by a stronger one is the same as filtering by the stronger one |

## Left out

- Network I/O: the requests to the upstream provider are a parameter `upstream`
  mapping a year to fetched records, not-found, or another failure. The URL and
  the country code IN are not modelled.
- Concurrency: `Promise.all` is modelled only by its outcome. Both years are
  requested, and the query fails when either request fails.
- The web framework: routing, the HTTP server and the `success` field of the
  JSON bodies are left out. Every response body is a value of `Payload` or an
  error message.
- The clock: the current year and today's date are parameters of
  `UpcomingHolidays`, given independently of each other.
- Time zones: the source parses a record's `YYYY-MM-DD` date as UTC midnight.
  It compares that with today's local midnight (`setHours(0, 0, 0, 0)`,
  controllers/api.controller.js:121), and it reads months and years in local
  time (lines 26, 88 and 173). The model assumes the server runs at UTC offset
  0. At any other offset the results differ as follows, whatever the time of
  the request:
  - East of UTC (India is at +05:30), every `daysUntil` is one larger than the
    model's; a holiday dated today gets 1, not 0.
  - West of UTC, kept holidays get the model's `daysUntil`, and only three
    things differ. First, a holiday dated today lies before today's local
    midnight, so the filter at line 136 drops it.
  - Second, west of UTC, `getMonth` (lines 26 and 88) puts a holiday on the
    1st into the previous month.
  - Third, west of UTC, `getFullYear` (line 173) makes a check of `YYYY-01-01` fetch
    the previous year's list, which never contains that date.
- Floating point: `Math.ceil` over a millisecond difference divided by
  86400000 is modelled as the whole-day difference of day numbers. The two
  agree when both instants are UTC midnights. Across a daylight-saving change
  they need not: a 25-hour day makes `Math.ceil` round up by one.
- Parameter parsing: the year and month parameters are modelled after the
  `isNaN` test and `parseInt`. `None` means `isNaN` rejects the text; otherwise
  the value is `Some` of the integer `parseInt` gives. Texts that `isNaN`
  accepts but `parseInt` turns into NaN are not modelled. Examples are a blank
  or `"Infinity"`; there the source goes on with NaN to the range check.
- `UpcomingCount`: the `count` parameter has no `isNaN` test (line 117). Its
  `None` means `parseInt` returned NaN: the parameter is absent, or after
  optional whitespace and an optional sign it does not start with a decimal
  digit. So `?count=3abc` is `Some(3)`, `?count=-3` is `Some(-3)` (the negative
  `slice(0, -3)` case), and `?count=+2` and `?count= 7` are `Some(2)` and
  `Some(7)`.
- Date parsing: the runtime's lenient `new Date(text)` is an input `parsed` of
  `SpecificDays`. The model does not decide which texts it accepts. The lookup
  compares the raw text, as the source does. `FindByIsoDate` states the meaning
  only for strict YYYY-MM-DD text.
- Date validation: the 400 message says "Use YYYY-MM-DD"
  (controllers/api.controller.js:169). The test at lines 165-167 accepts any
  text `new Date` can parse, such as `Jan 5 2024`. The model follows the test.
- Malformed upstream payloads: upstream payloads are assumed to be arrays of
  well-formed records (`Fetched(seq<Holiday>)`). In the source, a failure while
  processing a malformed payload is caught and answered with the handler's 500.
  For example, a record without `types` makes `holiday.types.forEach` (line
  212) throw, and lines 226-231 answer 500 "Failed to fetch holiday types".
  That 500 is not modelled: on a fetched list the model's handlers always
  succeed.
- Upstream record fields other than the date, the name and the type labels are
  not modelled. The source passes them through unchanged.
- `UpcomingHolidays`: the `...h` spread is modelled as a pair of the record and
  `daysUntil`. It is not a flat record.
- `HolidaysType`: JavaScript objects list integer-like keys first, in numeric
  order. Labels such as `"__proto__"` also behave specially. The model lists
  keys in creation order, which is what `Object.keys` gives for ordinary string
  labels.
- Upstream dates are assumed to be real calendar dates between years 0 and 9999
  wherever a lemma needs that: `FindByIsoDate`, `DaysUntilMeaning`,
  `MonthBucketsPartition`.
- The authentication layer, the user and token handling, and the application
  setup are not part of this model. `controllers/holidayController.js` is not
  part of this model either: it is a fetch wrapper with a field projection.
