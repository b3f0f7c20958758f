/** `resolveRequest`: turns a proxy request into the request for the origin image. The path
    of the proxy URL, less its leading `/`, is the percent-encoded origin URI; Notion image
    URLs that wrap an Unsplash image get Unsplash's sizing and format parameters. The
    runtime's `decodeURIComponent` and `encodeURIComponent` are parameters. */
module OriginResolver {
  import opened Wrappers
  import opened Text
  import opened SearchParams
  import opened Url
  import opened Http

  const NotionImagePrefix := "https://www.notion.so/image/"
  const UnsplashHost := "images.unsplash.com"

  // ---------------------------------------------------------------------------
  // The Unsplash defaults

  /** The parameters after the two `searchParams.set` steps: `w=1920` and `fit=max` when
      neither `w` nor `fit` is there, then `auto=format` when `auto` is not there. */
  function WithUnsplashDefaults(ps: seq<Param>): seq<Param> {
    var sized := if !Has(ps, "w") && !Has(ps, "fit") then Set(Set(ps, "w", "1920"), "fit", "max") else ps;
    if !Has(sized, "auto") then Set(sized, "auto", "format") else sized
  }

  /** The defaults are appended after the existing parameters, which stay as they were:
      `w=1920&fit=max` only when neither `w` nor `fit` is present, and `auto=format` only
      when `auto` is absent, whatever happened to `w` and `fit`. */
  lemma UnsplashDefaultsAppended(ps: seq<Param>)
    ensures WithUnsplashDefaults(ps)
            == ps
               + (if !Has(ps, "w") && !Has(ps, "fit") then [Param("w", "1920"), Param("fit", "max")] else [])
               + (if !Has(ps, "auto") then [Param("auto", "format")] else [])
  {
    var sized := if !Has(ps, "w") && !Has(ps, "fit") then Set(Set(ps, "w", "1920"), "fit", "max") else ps;
    if !Has(ps, "w") && !Has(ps, "fit") {
      SetHas(ps, "w", "1920", "fit");
      assert Set(ps, "w", "1920") == ps + [Param("w", "1920")];
      assert sized == ps + [Param("w", "1920"), Param("fit", "max")];
      SetHas(ps, "w", "1920", "auto");
      SetHas(Set(ps, "w", "1920"), "fit", "max", "auto");
    }
    assert Has(sized, "auto") == Has(ps, "auto");
  }

  /** An explicit `w` or `fit` suppresses both size defaults: the pairs called `w` and
      the pairs called `fit` stay as they were. */
  lemma ExplicitSizeKept(ps: seq<Param>, name: string)
    requires Has(ps, "w") || Has(ps, "fit")
    requires name == "w" || name == "fit"
    ensures Named(WithUnsplashDefaults(ps), name) == Named(ps, name)
  {
    assert name != "auto";
  }

  /** An explicit `auto` is kept as it was. */
  lemma ExplicitAutoKept(ps: seq<Param>)
    requires Has(ps, "auto")
    ensures Named(WithUnsplashDefaults(ps), "auto") == Named(ps, "auto")
  {
    if !Has(ps, "w") && !Has(ps, "fit") {
      SetHas(ps, "w", "1920", "auto");
      SetHas(Set(ps, "w", "1920"), "fit", "max", "auto");
    }
  }

  /** Parameters other than `w`, `fit` and `auto` are never touched. */
  lemma OtherParamsKept(ps: seq<Param>, name: string)
    requires name != "w" && name != "fit" && name != "auto"
    ensures Named(WithUnsplashDefaults(ps), name) == Named(ps, name)
  {
    var sized := if !Has(ps, "w") && !Has(ps, "fit") then Set(Set(ps, "w", "1920"), "fit", "max") else ps;
    assert Named(sized, name) == Named(ps, name);
  }

  /** Some default is missing, so at least one `set` runs. */
  predicate NeedsUnsplashDefaults(ps: seq<Param>) {
    (!Has(ps, "w") && !Has(ps, "fit")) || !Has(ps, "auto")
  }

  /** The inner image URL after the conditional `set` calls. Only the query changes: the
      list gets the defaults, and the query text is rewritten from that list when a `set`
      runs and is left as it was when none does. */
  function UnsplashImage(u: Url): (r: Url)
    ensures r == u.(query := r.query, searchParams := r.searchParams)
    ensures r.searchParams == WithUnsplashDefaults(u.searchParams)
    ensures NeedsUnsplashDefaults(u.searchParams) ==> r.query == Some(SerializeParams(r.searchParams))
    ensures !NeedsUnsplashDefaults(u.searchParams) ==> r.query == u.query
  {
    UnsplashDefaultsAppended(u.searchParams);
    if NeedsUnsplashDefaults(u.searchParams) then SetParams(u, WithUnsplashDefaults(u.searchParams))
    else u
  }

  // ---------------------------------------------------------------------------
  // The origin URI

  /** The origin URI for a Notion image URL whose inner URL has been parsed: rewritten
      with the Unsplash defaults for an Unsplash image, left as it is otherwise. */
  function NotionOrigin(originUri: string, imageUrl: Url, encodeComponent: string -> string): string {
    if imageUrl.hostname == UnsplashHost then
      NotionImagePrefix + encodeComponent(Serialize(UnsplashImage(imageUrl)))
    else originUri
  }

  /** The origin URI from the decoded Notion URL `originUri`: its remainder is decoded
      again and parsed as the inner image URL. */
  function NotionOriginUri(originUri: string, decodeComponent: string -> Option<string>,
                           encodeComponent: string -> string): Result<string>
    requires StartsWith(originUri, NotionImagePrefix)
  {
    var inner := originUri[|NotionImagePrefix|..];
    match decodeComponent(inner)
    case None => Err(UriError(inner))
    case Some(imageUri) =>
      match Parse(imageUri)
      case Err(e) => Err(e)
      case Ok(imageUrl) => Ok(NotionOrigin(originUri, imageUrl, encodeComponent))
  }

  /** The origin URI from the proxy path without its leading `/`. */
  function OriginFromPath(path: string, decodeComponent: string -> Option<string>,
                          encodeComponent: string -> string): Result<string>
  {
    match decodeComponent(path)
    case None => Err(UriError(path))
    case Some(originUri) =>
      if StartsWith(originUri, NotionImagePrefix)
      then NotionOriginUri(originUri, decodeComponent, encodeComponent)
      else Ok(originUri)
  }

  /** The value `originUri` ends with, or the exception that interrupts the computation. */
  function OriginUri(request: Request, decodeComponent: string -> Option<string>,
                     encodeComponent: string -> string): Result<string>
  {
    match Parse(request.url)
    case Err(e) => Err(e)
    case Ok(requestUrl) => OriginFromPath(requestUrl.pathname[1..], decodeComponent, encodeComponent)
  }

  /** `new Request(originUri, request)`: the URI must be absolute; method and headers are
      copied from the proxy request. */
  function RequestFor(request: Request, originUri: Result<string>): Result<Request> {
    match originUri
    case Err(e) => Err(e)
    case Ok(o) =>
      match Parse(o)
      case Err(e) => Err(e)
      case Ok(originUrl) => Ok(Request(request.httpMethod, Serialize(originUrl), request.headers))
  }

  /** What `resolveRequest(event, request)` resolves to, or the exception it throws. */
  function Resolved(request: Request, decodeComponent: string -> Option<string>,
                    encodeComponent: string -> string): Result<Request>
  {
    RequestFor(request, OriginUri(request, decodeComponent, encodeComponent))
  }

  /** The two conditional blocks of `searchParams.set` calls on an Unsplash image URL. */
  method AddUnsplashDefaults(imageUrl: Url) returns (u: Url)
    ensures u == UnsplashImage(imageUrl)
  {
    u := imageUrl;
    if !Has(u.searchParams, "w") && !Has(u.searchParams, "fit") {
      u := SetParams(u, Set(u.searchParams, "w", "1920"));
      u := SetParams(u, Set(u.searchParams, "fit", "max"));
    }
    if !Has(u.searchParams, "auto") {
      u := SetParams(u, Set(u.searchParams, "auto", "format"));
    }
  }

  /** The Notion block of `resolveRequest`: the remainder of `originUri` is decoded and
      parsed, and an Unsplash image gets its defaults and is encoded back behind the
      Notion prefix. */
  method ResolveNotionUri(originUri: string, decodeComponent: string -> Option<string>,
                          encodeComponent: string -> string)
    returns (r: Result<string>)
    requires StartsWith(originUri, NotionImagePrefix)
    ensures r == NotionOriginUri(originUri, decodeComponent, encodeComponent)
  {
    var inner := originUri[|NotionImagePrefix|..];
    var imageUri := decodeComponent(inner);
    if imageUri.None? {
      return Err(UriError(inner));
    }
    var parsedImage := Parse(imageUri.value);
    if parsedImage.Err? {
      return Err(parsedImage.error);
    }
    var imageUrl := parsedImage.value;
    if imageUrl.hostname == UnsplashHost {
      imageUrl := AddUnsplashDefaults(imageUrl);
      return Ok(NotionImagePrefix + encodeComponent(Serialize(imageUrl)));
    }
    return Ok(originUri);
  }

  /** `resolveRequest`, reassigning `originUri` in source order. */
  method ResolveRequest(request: Request, decodeComponent: string -> Option<string>,
                        encodeComponent: string -> string)
    returns (r: Result<Request>)
    ensures r == Resolved(request, decodeComponent, encodeComponent)
    ensures r.Ok? ==> r.value.httpMethod == request.httpMethod && r.value.headers == request.headers
  {
    var requestUrl := Parse(request.url);
    if requestUrl.Err? {
      return Err(requestUrl.error);
    }
    var path := requestUrl.value.pathname[1..];
    ghost var origin := OriginFromPath(path, decodeComponent, encodeComponent);
    assert Resolved(request, decodeComponent, encodeComponent) == RequestFor(request, origin);
    var decoded := decodeComponent(path);
    if decoded.None? {
      return Err(UriError(path));
    }
    var originUri := decoded.value;
    if StartsWith(originUri, NotionImagePrefix) {
      var notion := ResolveNotionUri(originUri, decodeComponent, encodeComponent);
      if notion.Err? {
        return Err(notion.error);
      }
      originUri := notion.value;
    }
    assert origin == Ok(originUri);
    var originUrl := Parse(originUri);
    if originUrl.Err? {
      return Err(originUrl.error);
    }
    return Ok(Request(request.httpMethod, Serialize(originUrl.value), request.headers));
  }

  // ---------------------------------------------------------------------------
  // What the resolver promises

  /** An origin URI outside Notion's image service is the decoded path, used as it is. */
  lemma PlainOriginUnchanged(request: Request, decodeComponent: string -> Option<string>,
                             encodeComponent: string -> string)
    requires Parse(request.url).Ok?
    requires decodeComponent(Parse(request.url).value.pathname[1..]).Some?
    requires !StartsWith(decodeComponent(Parse(request.url).value.pathname[1..]).value, NotionImagePrefix)
    ensures OriginUri(request, decodeComponent, encodeComponent)
            == Ok(decodeComponent(Parse(request.url).value.pathname[1..]).value)
  {
  }

  /** A Notion image URL whose inner URL is not on Unsplash is the origin URI as it was
      decoded from the proxy path. */
  lemma NotionNonUnsplashUnchanged(request: Request, decodeComponent: string -> Option<string>,
                                   encodeComponent: string -> string,
                                   originUri: string, imageUri: string, imageUrl: Url)
    requires Parse(request.url).Ok?
    requires decodeComponent(Parse(request.url).value.pathname[1..]) == Some(originUri)
    requires StartsWith(originUri, NotionImagePrefix)
    requires decodeComponent(originUri[|NotionImagePrefix|..]) == Some(imageUri)
    requires Parse(imageUri) == Ok(imageUrl)
    requires imageUrl.hostname != UnsplashHost
    ensures OriginUri(request, decodeComponent, encodeComponent) == Ok(originUri)
  {
  }

  /** A Notion image URL whose inner URL is on Unsplash becomes the Notion prefix followed
      by the encoded inner URL with the Unsplash defaults. */
  lemma NotionUnsplashRewritten(request: Request, decodeComponent: string -> Option<string>,
                                encodeComponent: string -> string,
                                originUri: string, imageUri: string, imageUrl: Url)
    requires Parse(request.url).Ok?
    requires decodeComponent(Parse(request.url).value.pathname[1..]) == Some(originUri)
    requires StartsWith(originUri, NotionImagePrefix)
    requires decodeComponent(originUri[|NotionImagePrefix|..]) == Some(imageUri)
    requires Parse(imageUri) == Ok(imageUrl)
    requires imageUrl.hostname == UnsplashHost
    ensures OriginUri(request, decodeComponent, encodeComponent)
            == Ok(NotionImagePrefix + encodeComponent(Serialize(UnsplashImage(imageUrl))))
  {
  }

  /** The resolver fails when the proxy URL, the origin URI or the inner Notion URL does
      not parse, or when a decoding step meets a malformed escape. */
  lemma InnerParseFailure(request: Request, decodeComponent: string -> Option<string>,
                          encodeComponent: string -> string)
    requires Parse(request.url).Ok?
    requires var path := Parse(request.url).value.pathname[1..];
      decodeComponent(path).Some?
      && StartsWith(decodeComponent(path).value, NotionImagePrefix)
      && var inner := decodeComponent(path).value[|NotionImagePrefix|..];
         decodeComponent(inner).Some? && Parse(decodeComponent(inner).value).Err?
    ensures Resolved(request, decodeComponent, encodeComponent).Err?
  {
  }

  /** A resolved request keeps the proxy request's method and headers and has, as its URL,
      the origin URI as the URL parser serializes it. */
  lemma ResolvedRequest(request: Request, decodeComponent: string -> Option<string>,
                        encodeComponent: string -> string)
    requires Resolved(request, decodeComponent, encodeComponent).Ok?
    ensures OriginUri(request, decodeComponent, encodeComponent).Ok?
    ensures var o := OriginUri(request, decodeComponent, encodeComponent).value;
      Parse(o).Ok?
      && Resolved(request, decodeComponent, encodeComponent).value
         == Request(request.httpMethod, Serialize(Parse(o).value), request.headers)
  {
  }
}
