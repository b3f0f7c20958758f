/** `handleOptions`: the answer to an `OPTIONS` request, a CORS preflight response when the
    request carries the three preflight headers and a plain `Allow` response otherwise. */
module OptionsHandler {
  import opened Wrappers
  import opened Http

  /** The methods the proxy advertises. */
  const AllowedMethods := "GET, HEAD, POST, PUT, DELETE, TRACE, PATCH, OPTIONS"

  /** `Origin`, `Access-Control-Request-Method` and `Access-Control-Request-Headers` are
      all present. */
  predicate IsPreflight(headers: HeaderMap) {
    Lookup(headers, "origin") != None
    && Lookup(headers, "access-control-request-method") != None
    && Lookup(headers, "access-control-request-headers") != None
  }

  /** `handleOptions(request)`: a preflight answer exactly when the three headers are
      present, otherwise a plain `Allow` answer; both kinds have a `null` body and status
      200, and advertise the same method list. */
  function HandleOptions(request: Request): (r: Response)
    ensures "access-control-allow-origin" in r.headers <==>
      "origin" in request.headers
      && "access-control-request-method" in request.headers
      && "access-control-request-headers" in request.headers
    ensures "allow" in r.headers <==> "access-control-allow-origin" !in r.headers
    ensures r.body == None && r.status == 200
    ensures if "allow" in r.headers then r.headers["allow"] == AllowedMethods
            else "access-control-allow-methods" in r.headers
                 && r.headers["access-control-allow-methods"] == AllowedMethods
  {
    if IsPreflight(request.headers) then
      Response(200, None, map[
        "access-control-allow-origin" := "*",
        "access-control-allow-methods" := AllowedMethods,
        "access-control-allow-headers" := Lookup(request.headers, "access-control-request-headers").value])
    else
      Response(200, None, map["allow" := AllowedMethods])
  }

  /** A request with all three preflight headers gets exactly the three CORS headers:
      any origin, the method list, and the requested headers echoed back. */
  lemma PreflightResponse(request: Request)
    requires "origin" in request.headers
    requires "access-control-request-method" in request.headers
    requires "access-control-request-headers" in request.headers
    ensures var h := HandleOptions(request).headers;
      h.Keys == {"access-control-allow-origin", "access-control-allow-methods",
                 "access-control-allow-headers"}
      && h["access-control-allow-origin"] == "*"
      && h["access-control-allow-methods"] == AllowedMethods
      && h["access-control-allow-headers"] == request.headers["access-control-request-headers"]
  {
  }

  /** A request missing any of the three gets only `Allow` with the method list. */
  lemma PlainOptionsResponse(request: Request)
    requires "origin" !in request.headers
             || "access-control-request-method" !in request.headers
             || "access-control-request-headers" !in request.headers
    ensures HandleOptions(request).headers == map["allow" := AllowedMethods]
  {
  }
}
