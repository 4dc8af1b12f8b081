/** The client object: a rate limiter of `requestLimit` requests per one
    `timeUnit`, and the base URL the documents are posted to. Only the
    argument checks of construction are modelled here; sending documents is
    network I/O. */
module CrptApi {

  import opened JavaLong
  import opened Results
  import opened TimeUnits
  import opened RateLimiter

  const DEFAULT_API_URL: string := "https://ismp.crpt.ru/api/v3"

  const REQUEST_LIMIT_MESSAGE: string := "requestLimit must be greater than 0"

  datatype Client = Client(limiter: Limiter, baseUrl: string)

  /** `new CrptApi(timeUnit, requestLimit, baseUrl)`: the request limit is
      checked first; the limiter then gets a window of one `timeUnit` in
      whole milliseconds and repeats its own checks. A unit finer than a
      millisecond gives a window of 0, which the limiter refuses. */
  function New(unit: TimeUnit, requestLimit: Int, baseUrl: string): (r: Result<Client>)
    ensures r.Ok? <==> 0 < requestLimit && NANOS_PER_MILLI <= NanosPerUnit(unit)
    ensures requestLimit <= 0 ==> r == IllegalArgument(REQUEST_LIMIT_MESSAGE)
    ensures 0 < requestLimit && NanosPerUnit(unit) < NANOS_PER_MILLI ==>
              r == IllegalArgument(WINDOW_MESSAGE)
    ensures r.Ok? ==>
              && r.value.baseUrl == baseUrl
              && r.value.limiter == Limiter(ToMillisOfOne(unit), requestLimit, [])
              && Good(r.value.limiter, 0)
  {
    if requestLimit <= 0 then IllegalArgument(REQUEST_LIMIT_MESSAGE)
    else
      match RateLimiter.New(ToMillisOfOne(unit), requestLimit)
      case Ok(l) => Ok(Client(l, baseUrl))
      case IllegalArgument(m) => IllegalArgument(m)
  }

  /** `new CrptApi(timeUnit, requestLimit)`: the same, posting to the
      default URL. */
  function NewWithDefaultUrl(unit: TimeUnit, requestLimit: Int): (r: Result<Client>)
    ensures r.Ok? <==> 0 < requestLimit && NANOS_PER_MILLI <= NanosPerUnit(unit)
    ensures r.Ok? ==> r.value.baseUrl == DEFAULT_API_URL
  {
    New(unit, requestLimit, DEFAULT_API_URL)
  }

  /** Construction fails exactly for a non-positive request limit or a unit
      of nanoseconds or microseconds; with any other unit the window is the
      unit's length in milliseconds. */
  lemma NewFailsIff(unit: TimeUnit, requestLimit: Int, baseUrl: string)
    ensures New(unit, requestLimit, baseUrl).IllegalArgument? <==>
              requestLimit <= 0 || unit == Nanoseconds || unit == Microseconds
    ensures New(unit, requestLimit, baseUrl).Ok? ==>
              New(unit, requestLimit, baseUrl).value.limiter.window * NANOS_PER_MILLI == NanosPerUnit(unit)
  {
    ToMillisOfOneZeroIff(unit);
  }
}
