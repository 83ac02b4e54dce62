/**
 * The holiday record and the upstream provider that supplies a year's list.
 * The provider is a parameter: a function from a year to the outcome of the one
 * request a handler makes for it.
 */
module HolidaySource {
  import opened Calendar

  /** One upstream holiday record; the fields the views read. */
  datatype Holiday = Holiday(date: Date, name: string, types: seq<string>)

  /** The outcome of one request for a year's holidays. */
  datatype Fetch =
    | Fetched(holidays: seq<Holiday>)
    | UpstreamNotFound      // the provider answered 404
    | UpstreamUnavailable   // any other failure of the request

  /** The provider, as seen by the handlers: year to fetch outcome. */
  type Upstream = int -> Fetch
}
