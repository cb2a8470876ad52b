/**
 * The search endpoint `app/api/search/route.ts` as a decision function.
 *
 * Everything the handler consults outside its own code is a parameter: the
 * rate limiter `checkRateLimit` (applied to the endpoint's fixed quota), the
 * header builder `createRateLimitHeaders`, the two `Date.now()` samples taken
 * on the rejected path, the `EMBEDDING_PROVIDER` environment variable, the
 * database client getter and the vector `search` call. The result is the
 * status, the JSON body and the header map the handler passes to
 * `NextResponse.json`.
 */
module SearchRoute {
  import opened Wrappers
  import opened JsRuntime

  type Headers = map<string, string>

  /** The options object passed to the rate limiter. */
  datatype RateLimitConfig = RateLimitConfig(maxRequests: int, windowSeconds: int)

  /** The search endpoint's quota: 20 requests per 60-second window per client. */
  const SearchRateLimit := RateLimitConfig(20, 60)

  /** What the rate limiter answers; `resetTime` is in epoch milliseconds. */
  datatype RateLimitResult = RateLimitResult(allowed: bool, remaining: int, resetTime: int)

  /**
   * A value thrown inside the handler's `try` block: an `Error` instance
   * (with its `message`) or any other value.
   */
  datatype Thrown = ErrorInstance(message: string) | NonError

  /** The `query` property of the parsed body. */
  datatype QueryField = Missing | Str(s: string) | NonString

  /**
   * The outcome of `await request.json()` followed by destructuring.
   * `ParseFailed` is any throw there: malformed JSON, or a JSON `null`
   * whose destructuring raises a `TypeError`. `Json` is any other parsed
   * value; `limit` is `None` when the property is absent.
   */
  datatype RequestBody = ParseFailed(thrown: Thrown) | Json(query: QueryField, limit: Option<int>)

  /** What the external vector search does: returns its results, or throws. */
  datatype SearchOutcome<R> = Found(results: seq<R>) | Threw(thrown: Thrown)

  /** The JSON bodies the endpoint produces. */
  datatype ResponseBody<R> =
    | TooManyRequests(error: string, message: string, retryAfter: int)
    // `detail` is the optional JSON `message` of a 400 answer
    | BadRequest(error: string, detail: Option<string>)
    | SearchResults(results: seq<R>, count: int, query: string)
    | SearchFailed(error: string, message: string)
    | MethodNotAllowed(error: string)

  datatype Response<R> = Response(status: int, body: ResponseBody<R>, headers: Headers)

  const ContentTypeJson := "application/json"
  const MaxQueryLength := 500
  const DefaultLimit := 10
  const MinLimit := 1
  const MaxLimit := 20
  const DefaultProvider := "local"

  /**
   * The headers of every POST response: the JSON content type, then the rate
   * limiter's headers spread over it (a later key of an object literal wins).
   */
  function ResponseHeaders(rateLimitHeaders: Headers): (h: Headers)
    ensures h.Keys == rateLimitHeaders.Keys + {"Content-Type"}
    ensures forall k :: k in rateLimitHeaders ==> h[k] == rateLimitHeaders[k]
    ensures "Content-Type" !in rateLimitHeaders ==> h["Content-Type"] == ContentTypeJson
  {
    map["Content-Type" := ContentTypeJson] + rateLimitHeaders
  }

  /**
   * `Math.ceil((resetTime - now) / 1000)` on integer milliseconds: the
   * smallest whole number of seconds that covers the time left.
   */
  function RetryAfterSeconds(resetTime: int, now: int): (s: int)
    ensures (s - 1) * 1000 < resetTime - now <= s * 1000
    ensures resetTime > now ==> s >= 1
  {
    -((now - resetTime) / 1000)
  }

  /** `!query || typeof query !== 'string'` is false: a non-empty string. */
  predicate QueryPresent(q: QueryField) {
    q.Str? && q.s != ""
  }

  /**
   * `Math.min(Math.max(1, limit), 20)` with `limit` defaulting to 10 when
   * the property is absent.
   */
  function SanitizeLimit(limit: Option<int>): (n: int)
    ensures MinLimit <= n <= MaxLimit
    ensures limit.None? ==> n == DefaultLimit
    ensures limit.Some? && MinLimit <= limit.value <= MaxLimit ==> n == limit.value
    ensures limit.Some? && limit.value < MinLimit ==> n == MinLimit
    ensures limit.Some? && limit.value > MaxLimit ==> n == MaxLimit
  {
    var requested := limit.GetOr(DefaultLimit);
    var atLeastOne := if requested > MinLimit then requested else MinLimit;
    if atLeastOne < MaxLimit then atLeastOne else MaxLimit
  }

  /** `process.env.EMBEDDING_PROVIDER || 'local'`: the variable if set and non-empty. */
  function EmbeddingProvider(env: Option<string>): (provider: string)
    ensures provider != ""
    ensures env.Some? && env.value != "" ==> provider == env.value
    ensures env.None? || env.value == "" ==> provider == DefaultProvider
  {
    if env.Some? && env.value != "" then env.value else DefaultProvider
  }

  /** `error instanceof Error ? error.message : 'Unknown error'`. */
  function ErrorMessage(t: Thrown): string {
    match t
    case ErrorInstance(m) => m
    case NonError => "Unknown error"
  }

  /** How the `try` block ends: by returning a response, or by a throw. */
  datatype TryOutcome<R> = Returned(status: int, body: ResponseBody<R>) | Raised(thrown: Thrown)

  /**
   * Lines 47-95: parse, validate, obtain the database client (which may
   * throw; `clientFailure`), then search with the sanitized limit.
   */
  function TryBlock<R>(
    body: RequestBody,
    providerEnv: Option<string>,
    clientFailure: Option<Thrown>,
    search: (string, int, string) -> SearchOutcome<R>
  ): TryOutcome<R>
  {
    match body
    case ParseFailed(t) => Raised(t)
    case Json(query, limit) =>
      if !QueryPresent(query) then
        Returned(400, BadRequest("Query parameter is required", None))
      else if Utf16Length(query.s) > MaxQueryLength then
        Returned(400, BadRequest("Query too long", Some("Query must be less than 500 characters")))
      else if clientFailure.Some? then
        Raised(clientFailure.value)
      else
        match search(query.s, SanitizeLimit(limit), EmbeddingProvider(providerEnv))
        case Threw(t) => Raised(t)
        case Found(results) => Returned(200, SearchResults(results, |results|, query.s))
  }

  /**
   * The POST handler. The rate limit is checked first; on rejection the
   * 429 response is built from two clock samples (`nowAtBody` for the JSON
   * body, `nowAtHeader` for the `Retry-After` header) and nothing else is
   * consulted. Otherwise the `try` block runs and any throw becomes a 500.
   */
  function Post<R>(
    checkRateLimit: RateLimitConfig -> RateLimitResult,
    createRateLimitHeaders: RateLimitResult -> Headers,
    nowAtBody: int,
    nowAtHeader: int,
    body: RequestBody,
    providerEnv: Option<string>,
    clientFailure: Option<Thrown>,
    search: (string, int, string) -> SearchOutcome<R>
  ): (resp: Response<R>)
    ensures resp.status in {200, 400, 429, 500}
    ensures resp.status == 429 <==> !checkRateLimit(SearchRateLimit).allowed
    ensures "Content-Type" in resp.headers
    ensures resp.headers.Keys ==
              createRateLimitHeaders(checkRateLimit(SearchRateLimit)).Keys + {"Content-Type"}
              + (if resp.status == 429 then {"Retry-After"} else {})
    ensures forall k :: k in createRateLimitHeaders(checkRateLimit(SearchRateLimit)) &&
                        (resp.status != 429 || k != "Retry-After") ==>
              resp.headers[k] == createRateLimitHeaders(checkRateLimit(SearchRateLimit))[k]
  {
    var rateLimit := checkRateLimit(SearchRateLimit);
    var headers := ResponseHeaders(createRateLimitHeaders(rateLimit));
    if !rateLimit.allowed then
      Response(
        429,
        TooManyRequests(
          "Too many requests",
          "Rate limit exceeded. Please try again later.",
          RetryAfterSeconds(rateLimit.resetTime, nowAtBody)),
        headers["Retry-After" := IntToString(RetryAfterSeconds(rateLimit.resetTime, nowAtHeader))])
    else
      match TryBlock(body, providerEnv, clientFailure, search)
      case Returned(status, b) => Response(status, b, headers)
      case Raised(t) => Response(500, SearchFailed("Search failed", ErrorMessage(t)), headers)
  }

  /** The GET handler: always 405, with only the content type and no rate-limit check. */
  function Get<R>(): (resp: Response<R>)
    ensures resp.status == 405
    ensures resp.headers.Keys == {"Content-Type"} && resp.headers["Content-Type"] == ContentTypeJson
  {
    Response(405, MethodNotAllowed("Use POST method for search"), map["Content-Type" := ContentTypeJson])
  }

  // ---------------------------------------------------------------------------
  // Properties of the handler
  // ---------------------------------------------------------------------------

  /**
   * A rejected request is answered without looking at the body, the
   * environment, the database client or the search: any two requests with
   * the same rate-limit verdict and clock samples get the same 429 response.
   */
  lemma RejectedBeforeParsing<R>(
    checkRateLimit: RateLimitConfig -> RateLimitResult,
    createRateLimitHeaders: RateLimitResult -> Headers,
    nowAtBody: int, nowAtHeader: int,
    body1: RequestBody, providerEnv1: Option<string>, clientFailure1: Option<Thrown>,
    search1: (string, int, string) -> SearchOutcome<R>,
    body2: RequestBody, providerEnv2: Option<string>, clientFailure2: Option<Thrown>,
    search2: (string, int, string) -> SearchOutcome<R>)
    requires !checkRateLimit(SearchRateLimit).allowed
    ensures Post(checkRateLimit, createRateLimitHeaders, nowAtBody, nowAtHeader,
                 body1, providerEnv1, clientFailure1, search1)
         == Post(checkRateLimit, createRateLimitHeaders, nowAtBody, nowAtHeader,
                 body2, providerEnv2, clientFailure2, search2)
    ensures Post(checkRateLimit, createRateLimitHeaders, nowAtBody, nowAtHeader,
                 body1, providerEnv1, clientFailure1, search1).body.TooManyRequests?
  {
  }

  /**
   * On rejection, while the window has not yet reset, `retryAfter` is the
   * ceiling of the remaining milliseconds over 1000, and the `Retry-After`
   * header, read as a decimal integer, carries the same value when both
   * clock samples agree. It is then a valid delay-seconds value in the
   * sense of section 10.2.3 of RFC 9110: one or more decimal digits.
   */
  lemma RetryAfterAgrees<R>(
    checkRateLimit: RateLimitConfig -> RateLimitResult,
    createRateLimitHeaders: RateLimitResult -> Headers,
    now: int, body: RequestBody, providerEnv: Option<string>, clientFailure: Option<Thrown>,
    search: (string, int, string) -> SearchOutcome<R>)
    requires !checkRateLimit(SearchRateLimit).allowed
    requires checkRateLimit(SearchRateLimit).resetTime > now
    ensures
      var resp := Post(checkRateLimit, createRateLimitHeaders, now, now,
                       body, providerEnv, clientFailure, search);
      var wait := checkRateLimit(SearchRateLimit).resetTime - now;
      && resp.status == 429
      && resp.body.TooManyRequests?
      && resp.body.retryAfter >= 1
      && (resp.body.retryAfter - 1) * 1000 < wait <= resp.body.retryAfter * 1000
      && "Retry-After" in resp.headers
      && ParseInt(resp.headers["Retry-After"]) == Some(resp.body.retryAfter)
      && AllDigits(resp.headers["Retry-After"])
  {
    var seconds := RetryAfterSeconds(checkRateLimit(SearchRateLimit).resetTime, now);
    IntToStringRoundTrip(seconds);
  }

  /** A missing, empty or non-string query is answered 400 "Query parameter is required". */
  lemma QueryRequired<R>(
    checkRateLimit: RateLimitConfig -> RateLimitResult,
    createRateLimitHeaders: RateLimitResult -> Headers,
    nowAtBody: int, nowAtHeader: int,
    query: QueryField, limit: Option<int>,
    providerEnv: Option<string>, clientFailure: Option<Thrown>,
    search: (string, int, string) -> SearchOutcome<R>)
    requires checkRateLimit(SearchRateLimit).allowed
    requires query.Missing? || query.NonString? || query == Str("")
    ensures
      var resp := Post(checkRateLimit, createRateLimitHeaders, nowAtBody, nowAtHeader,
                       Json(query, limit), providerEnv, clientFailure, search);
      resp.status == 400 && resp.body == BadRequest("Query parameter is required", None)
  {
  }

  /**
   * A query longer than 500 UTF-16 code units is answered 400 "Query too
   * long"; one of exactly 500 passes validation and reaches the search.
   */
  lemma QueryLengthBoundary<R>(
    checkRateLimit: RateLimitConfig -> RateLimitResult,
    createRateLimitHeaders: RateLimitResult -> Headers,
    nowAtBody: int, nowAtHeader: int,
    s: string, limit: Option<int>,
    providerEnv: Option<string>, clientFailure: Option<Thrown>,
    search: (string, int, string) -> SearchOutcome<R>)
    requires checkRateLimit(SearchRateLimit).allowed
    requires s != ""
    ensures
      var resp := Post(checkRateLimit, createRateLimitHeaders, nowAtBody, nowAtHeader,
                       Json(Str(s), limit), providerEnv, clientFailure, search);
      && (Utf16Length(s) > 500 ==>
            resp.status == 400 &&
            resp.body == BadRequest("Query too long", Some("Query must be less than 500 characters")))
      && (Utf16Length(s) <= 500 ==> resp.status in {200, 500})
  {
  }

  /**
   * A valid query with a working client and search gets 200 with the
   * results the search returned for the sanitized limit and the configured
   * provider, their count, and the query echoed unchanged.
   */
  lemma SuccessShape<R>(
    checkRateLimit: RateLimitConfig -> RateLimitResult,
    createRateLimitHeaders: RateLimitResult -> Headers,
    nowAtBody: int, nowAtHeader: int,
    s: string, limit: Option<int>, providerEnv: Option<string>,
    search: (string, int, string) -> SearchOutcome<R>)
    requires checkRateLimit(SearchRateLimit).allowed
    requires s != "" && Utf16Length(s) <= MaxQueryLength
    requires search(s, SanitizeLimit(limit), EmbeddingProvider(providerEnv)).Found?
    ensures
      var resp := Post(checkRateLimit, createRateLimitHeaders, nowAtBody, nowAtHeader,
                       Json(Str(s), limit), providerEnv, None, search);
      var results := search(s, SanitizeLimit(limit), EmbeddingProvider(providerEnv)).results;
      && resp.status == 200
      && resp.body.SearchResults?
      && resp.body.results == results
      && resp.body.count == |resp.body.results|
      && resp.body.query == s
      && resp.headers == ResponseHeaders(createRateLimitHeaders(checkRateLimit(SearchRateLimit)))
  {
  }

  /**
   * A body that cannot be parsed, a client that cannot be created, or a
   * search that throws gives 500 "Search failed" with the error's message,
   * or "Unknown error" for a thrown non-Error.
   */
  lemma FailuresBecomeServerError<R>(
    checkRateLimit: RateLimitConfig -> RateLimitResult,
    createRateLimitHeaders: RateLimitResult -> Headers,
    nowAtBody: int, nowAtHeader: int,
    body: RequestBody, providerEnv: Option<string>, clientFailure: Option<Thrown>,
    search: (string, int, string) -> SearchOutcome<R>)
    requires checkRateLimit(SearchRateLimit).allowed
    requires TryBlock(body, providerEnv, clientFailure, search).Raised?
    ensures
      var t := TryBlock(body, providerEnv, clientFailure, search).thrown;
      var resp := Post(checkRateLimit, createRateLimitHeaders, nowAtBody, nowAtHeader,
                       body, providerEnv, clientFailure, search);
      && resp.status == 500
      && resp.body == SearchFailed("Search failed", if t.ErrorInstance? then t.message else "Unknown error")
  {
  }

  /** Which throws reach the catch: exactly the three failure points of the `try` block. */
  lemma RaisedExactly<R>(
    body: RequestBody, providerEnv: Option<string>, clientFailure: Option<Thrown>,
    search: (string, int, string) -> SearchOutcome<R>)
    ensures TryBlock(body, providerEnv, clientFailure, search).Raised? <==>
      || body.ParseFailed?
      || (QueryPresent(body.query) && Utf16Length(body.query.s) <= MaxQueryLength &&
          (clientFailure.Some? ||
           search(body.query.s, SanitizeLimit(body.limit), EmbeddingProvider(providerEnv)).Threw?))
  {
  }

  /** Sanitizing an already sanitized limit changes nothing. */
  lemma SanitizeLimitIdempotent(limit: Option<int>)
    ensures SanitizeLimit(Some(SanitizeLimit(limit))) == SanitizeLimit(limit)
  {
  }

  /** The limits named for this endpoint: absent gives 10, 0 gives 1, 1000 gives 20. */
  lemma SanitizeLimitExamples()
    ensures SanitizeLimit(None) == 10
    ensures SanitizeLimit(Some(0)) == 1
    ensures SanitizeLimit(Some(1000)) == 20
    ensures SanitizeLimit(Some(5)) == 5
  {
  }

  /** `{"query":"hello","limit":5}` with a search that returns three results. */
  lemma HelloScenario(
    checkRateLimit: RateLimitConfig -> RateLimitResult,
    createRateLimitHeaders: RateLimitResult -> Headers,
    nowAtBody: int, nowAtHeader: int, providerEnv: Option<string>,
    search: (string, int, string) -> SearchOutcome<int>)
    requires checkRateLimit(SearchRateLimit).allowed
    requires search("hello", 5, EmbeddingProvider(providerEnv)) == Found([7, 8, 9])
    ensures Post(checkRateLimit, createRateLimitHeaders, nowAtBody, nowAtHeader,
                 Json(Str("hello"), Some(5)), providerEnv, None, search).body
            == SearchResults([7, 8, 9], 3, "hello")
  {
    assert Utf16Length("hello") == 5;
  }
}
