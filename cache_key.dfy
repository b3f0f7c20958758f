/** `getRequestCacheKey`: decides whether a request may be served from the cache and, if
    so, builds the synthetic request the cache is keyed by. */
module CacheKeyPolicy {
  import opened Wrappers
  import opened Text
  import opened Url
  import opened UrlNormalizer
  import opened Http

  /** The request headers a cache key keeps. */
  const RequestHeaderWhitelist: set<string> :=
    {"cache-control", "accept", "accept-encoding", "accept-language", "user-agent"}

  /** `normalizeRequestHeaders`: deletes, in place, every header outside the whitelist. */
  method NormalizeRequestHeaders(headers: Headers)
    modifies headers
    ensures headers.entries == Whitelisted(old(headers.entries), RequestHeaderWhitelist)
  {
    DeleteUnlisted(headers, RequestHeaderWhitelist);
  }

  /** `new Set(cacheControl.split(',').map((s) => s.trim())).has(directive)`. */
  predicate HasDirective(cacheControl: string, directive: string) {
    exists piece :: piece in Split(cacheControl, ',') && Trim(piece) == directive
  }

  /** A `cache-control` header that is present, not empty, and lists `no-store` or
      `no-cache`. */
  predicate ForbidsCaching(cacheControl: Option<string>) {
    cacheControl.Some? && cacheControl.value != ""
    && (HasDirective(cacheControl.value, "no-store") || HasDirective(cacheControl.value, "no-cache"))
  }

  /** The refusals checked before the URL is looked at: `pragma: no-cache`, a method
      other than `GET` and `HEAD`, and a forbidding `cache-control` header. */
  predicate Refused(request: Request) {
    Lookup(request.headers, "pragma") == Some("no-cache")
    || (request.httpMethod != "GET" && request.httpMethod != "HEAD")
    || ForbidsCaching(Lookup(request.headers, "cache-control"))
  }

  /** The key once the URL has been normalized (or has failed to). When the normal form
      differs from the URL, `new Request(normalizedUrl, { method })` parses it and builds a
      request with no headers; otherwise `new Request(request)` copies the request. */
  function KeyFromNormalized(request: Request, normalized: Result<string>, reparsed: Result<Url>)
    : Option<Request>
  {
    match normalized
    case Err(_) => None
    case Ok(n) =>
      if request.url != n then
        match reparsed
        case Err(_) => None
        case Ok(u) => Some(Request(request.httpMethod, Serialize(u), map[]))
      else
        Some(Request(request.httpMethod, request.url,
                     Whitelisted(request.headers, RequestHeaderWhitelist)))
  }

  /** The normal form of the request's URL, parsed again. */
  function Reparsed(request: Request, decodeUri: string -> Option<string>): Result<Url> {
    match Normalized(request.url, decodeUri)
    case Err(e) => Err(e)
    case Ok(n) => Parse(n)
  }

  /** The key `getRequestCacheKey(request)` resolves to; `None` stands for `null`. Every
      exception of the `try` block (an invalid URL, a malformed escape) becomes `None`. */
  function CacheKey(request: Request, decodeUri: string -> Option<string>): Option<Request> {
    if Refused(request) then None
    else KeyFromNormalized(request, Normalized(request.url, decodeUri), Reparsed(request, decodeUri))
  }

  /** `getRequestCacheKey`, with the early returns of the source. */
  method GetRequestCacheKey(request: Request, decodeUri: string -> Option<string>)
    returns (key: Option<Request>)
    ensures key == CacheKey(request, decodeUri)
  {
    var requestHeaders := new Headers(request.headers);
    var pragma := requestHeaders.Get("pragma");
    if pragma == Some("no-cache") {
      assert Refused(request);
      return None;
    }
    if request.httpMethod != "GET" && request.httpMethod != "HEAD" {
      assert Refused(request);
      return None;
    }
    var cacheControl := requestHeaders.Get("cache-control");
    if cacheControl.Some? && cacheControl.value != "" {
      if HasDirective(cacheControl.value, "no-store") || HasDirective(cacheControl.value, "no-cache") {
        assert Refused(request);
        return None;
      }
    }
    assert !Refused(request);
    var url := request.url;
    var normalizedUrl := NormalizeUrl(url, decodeUri);
    if normalizedUrl.Err? {
      return None;
    }
    assert CacheKey(request, decodeUri)
           == KeyFromNormalized(request, normalizedUrl, Reparsed(request, decodeUri));
    if url != normalizedUrl.value {
      var parsed := Parse(normalizedUrl.value);
      assert Reparsed(request, decodeUri) == parsed;
      if parsed.Err? {
        return None;
      }
      var keyHeaders := new Headers(map[]);
      NormalizeRequestHeaders(keyHeaders);
      WhitelistedEmpty(RequestHeaderWhitelist);
      return Some(Request(request.httpMethod, Serialize(parsed.value), keyHeaders.entries));
    }
    var keyHeaders := new Headers(request.headers);
    NormalizeRequestHeaders(keyHeaders);
    return Some(Request(request.httpMethod, url, keyHeaders.entries));
  }

  // ---------------------------------------------------------------------------
  // What the policy promises

  /** A request yields a key exactly when none of the refusals applies: no
      `pragma: no-cache`, a read-only method, no forbidding `cache-control`, a URL that
      normalizes, and, when normalization changed it, a normalized URL that parses. */
  lemma CacheKeyExistsIff(request: Request, decodeUri: string -> Option<string>)
    ensures CacheKey(request, decodeUri).Some? <==>
      Lookup(request.headers, "pragma") != Some("no-cache")
      && request.httpMethod in {"GET", "HEAD"}
      && !ForbidsCaching(Lookup(request.headers, "cache-control"))
      && Normalized(request.url, decodeUri).Ok?
      && (request.url == Normalized(request.url, decodeUri).value
          || Parse(Normalized(request.url, decodeUri).value).Ok?)
  {
  }

  /** `pragma: no-cache` yields no key. */
  lemma PragmaNoCache(request: Request, decodeUri: string -> Option<string>)
    requires "pragma" in request.headers && request.headers["pragma"] == "no-cache"
    ensures CacheKey(request, decodeUri) == None
  {
  }

  /** Only `GET` and `HEAD` requests are cached. */
  lemma OnlyReadOnlyMethods(request: Request, decodeUri: string -> Option<string>)
    requires CacheKey(request, decodeUri).Some?
    ensures request.httpMethod == "GET" || request.httpMethod == "HEAD"
  {
  }

  /** A `cache-control` value whose comma-separated, trimmed directives include
      `no-store` or `no-cache` yields no key. */
  lemma CacheControlRefuses(request: Request, decodeUri: string -> Option<string>, k: nat)
    requires "cache-control" in request.headers
    requires var pieces := Split(request.headers["cache-control"], ',');
      k < |pieces| && Trim(pieces[k]) in {"no-store", "no-cache"}
    ensures CacheKey(request, decodeUri) == None
  {
    var value := request.headers["cache-control"];
    var piece := Split(value, ',')[k];
    assert piece in Split(value, ',');
    assert Split("", ',') == [""] && Trim("") == "";
    assert value != "";
  }

  /** A URL the normalizer rejects yields no key instead of an exception. */
  lemma FailedNormalizationGivesNoKey(request: Request, decodeUri: string -> Option<string>)
    requires Normalized(request.url, decodeUri).Err?
    ensures CacheKey(request, decodeUri) == None
  {
  }

  /** A key keeps the request's method and only whitelisted headers. */
  lemma KeyHeadersWhitelisted(request: Request, decodeUri: string -> Option<string>)
    requires CacheKey(request, decodeUri).Some?
    ensures CacheKey(request, decodeUri).value.httpMethod == request.httpMethod
    ensures CacheKey(request, decodeUri).value.headers.Keys <= RequestHeaderWhitelist
  {
  }

  /** When normalization leaves the URL as it is, the key is the request itself, less the
      headers outside the whitelist; the whitelisted ones keep their values. */
  lemma UnchangedUrlKey(request: Request, decodeUri: string -> Option<string>)
    requires CacheKey(request, decodeUri).Some?
    requires Normalized(request.url, decodeUri) == Ok(request.url)
    ensures var key := CacheKey(request, decodeUri).value;
      key.url == request.url
      && (forall name :: name in request.headers && name in RequestHeaderWhitelist ==>
            name in key.headers && key.headers[name] == request.headers[name])
      && (forall name :: name in key.headers ==> name in request.headers)
  {
  }

  /** When normalization changes the URL, the key is a fresh request for the normalized
      URL, as the URL parser serializes it, and carries none of the request's headers. */
  lemma ChangedUrlKey(request: Request, decodeUri: string -> Option<string>)
    requires CacheKey(request, decodeUri).Some?
    requires Normalized(request.url, decodeUri) != Ok(request.url)
    ensures Normalized(request.url, decodeUri).Ok?
    ensures var n := Normalized(request.url, decodeUri).value;
      Parse(n).Ok?
      && CacheKey(request, decodeUri).value == Request(request.httpMethod, Serialize(Parse(n).value), map[])
  {
  }

  /** Two read-only requests with the same method whose URLs both change under
      normalization, to the same string, share their key whatever their headers. */
  lemma SameNormalFormSameKey(a: Request, b: Request, decodeUri: string -> Option<string>)
    requires a.httpMethod == b.httpMethod
    requires CacheKey(a, decodeUri).Some? && CacheKey(b, decodeUri).Some?
    requires Normalized(a.url, decodeUri) == Normalized(b.url, decodeUri)
    requires Normalized(a.url, decodeUri) != Ok(a.url) && Normalized(b.url, decodeUri) != Ok(b.url)
    ensures CacheKey(a, decodeUri) == CacheKey(b, decodeUri)
  {
    ChangedUrlKey(a, decodeUri);
    ChangedUrlKey(b, decodeUri);
  }

  /** Two requests for URLs with the same normal form can still get different keys: the
      one whose URL is already normal keeps its whitelisted headers, the other gets none. */
  lemma HeaderLossSplitsKey(a: Request, b: Request, decodeUri: string -> Option<string>,
                            name: string)
    requires CacheKey(a, decodeUri).Some? && CacheKey(b, decodeUri).Some?
    requires Normalized(a.url, decodeUri) == Ok(a.url)
    requires Normalized(b.url, decodeUri) == Ok(a.url) && b.url != a.url
    requires name in a.headers && name in RequestHeaderWhitelist
    ensures name in CacheKey(a, decodeUri).value.headers
    ensures CacheKey(b, decodeUri).value.headers == map[]
    ensures CacheKey(a, decodeUri) != CacheKey(b, decodeUri)
  {
    UnchangedUrlKey(a, decodeUri);
    ChangedUrlKey(b, decodeUri);
  }
}
