/** The header rewriting `fetchRequest` applies to the origin's response before it is
    returned and cached: a whitelist filter, a fixed `cache-control` and the CORS headers.
    The `fetch` itself is not modelled; its response is the input. */
module ResponseSanitizer {
  import opened Http

  /** The origin response headers that are kept. */
  const ResponseHeaderWhitelist: set<string> :=
    {"connection", "content-disposition", "content-type", "content-length", "cf-polished",
     "date", "status", "transfer-encoding"}

  /** The `cache-control` value every proxied response carries. */
  const CacheControlDirective :=
    "public, immutable, s-maxage=31536000, max-age=31536000, stale-while-revalidate=60"

  /** `normalizeResponseHeaders`: deletes, in place, every header outside the whitelist. */
  method NormalizeResponseHeaders(headers: Headers)
    modifies headers
    ensures headers.entries == Whitelisted(old(headers.entries), ResponseHeaderWhitelist)
  {
    DeleteUnlisted(headers, ResponseHeaderWhitelist);
  }

  /** The headers after filtering, setting `cache-control` and setting each CORS header. */
  function SanitizedHeaders(origin: HeaderMap, cors: HeaderMap): HeaderMap {
    Whitelisted(origin, ResponseHeaderWhitelist)["cache-control" := CacheControlDirective] + cors
  }

  /** `new Response(originRes.body, originRes)` followed by the header edits of
      `fetchRequest`, in source order; `cors` is the global CORS header map. */
  method SanitizeResponse(originRes: Response, cors: HeaderMap) returns (res: Response)
    ensures res == Response(originRes.status, originRes.body, SanitizedHeaders(originRes.headers, cors))
  {
    var headers := new Headers(originRes.headers);
    NormalizeResponseHeaders(headers);
    headers.Set("cache-control", CacheControlDirective);
    SetEach(headers, cors);
    res := Response(originRes.status, originRes.body, headers.entries);
  }

  // ---------------------------------------------------------------------------
  // What the sanitizer promises

  /** A header survives exactly when it is a CORS header, `cache-control`, or a
      whitelisted origin header. */
  lemma SanitizedNames(origin: HeaderMap, cors: HeaderMap, name: string)
    ensures name in SanitizedHeaders(origin, cors) <==>
      name in cors || name == "cache-control" || (name in origin && name in ResponseHeaderWhitelist)
  {
  }

  /** Each CORS header carries the CORS value, whatever the origin sent. */
  lemma CorsOverrides(origin: HeaderMap, cors: HeaderMap, name: string)
    requires name in cors
    ensures SanitizedHeaders(origin, cors)[name] == cors[name]
  {
  }

  /** `cache-control` is the fixed directive, whatever the origin sent, unless the CORS
      map sets it too. */
  lemma CacheControlForced(origin: HeaderMap, cors: HeaderMap)
    requires "cache-control" !in cors
    ensures SanitizedHeaders(origin, cors)["cache-control"] == CacheControlDirective
  {
  }

  /** A whitelisted origin header that the CORS map does not set keeps its value. */
  lemma WhitelistedKept(origin: HeaderMap, cors: HeaderMap, name: string)
    requires name in origin && name in ResponseHeaderWhitelist && name !in cors
    ensures SanitizedHeaders(origin, cors)[name] == origin[name]
  {
    assert name != "cache-control";
  }

  /** Sanitizing a sanitized response changes nothing, so a cached response read back and
      passed through again is the same. */
  lemma SanitizeIdempotent(origin: HeaderMap, cors: HeaderMap)
    ensures SanitizedHeaders(SanitizedHeaders(origin, cors), cors) == SanitizedHeaders(origin, cors)
  {
    var once := SanitizedHeaders(origin, cors);
    var twice := SanitizedHeaders(once, cors);
    forall name ensures name in twice <==> name in once {
      SanitizedNames(origin, cors, name);
      SanitizedNames(once, cors, name);
    }
    forall name | name in twice ensures twice[name] == once[name] {
      if name !in cors && name != "cache-control" {
        SanitizedNames(origin, cors, name);
      }
    }
  }
}
