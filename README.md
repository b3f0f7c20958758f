# cf-image-proxy request pipeline, modelled in Dafny

cf-image-proxy is a Cloudflare Worker that sits in front of an image origin. For each
request it:

- resolves the origin image URI from the proxy path, with a special case for Notion image
  URLs that wrap an Unsplash image;
- decides whether the request may be cached and, if so, builds the synthetic request the
  cache is keyed by;
- rewrites the headers of the origin's response for long-lived public caching and CORS;
- answers `OPTIONS` requests on its own.

This project models those deterministic parts and proves what they promise:

- `UrlNormalizer` models `normalizeUrl` (`src/normalize-url.js`). It is a method that
  threads a URL record through the source's edits in order:
  - upgrade `http:` to `https:`;
  - collapse duplicate slashes outside `http:`/`https:`;
  - `decodeURI` the path;
  - drop a trailing dot from the host;
  - stable-sort the query;
  - drop one trailing slash.

  The method then applies the two string edits to the serialization. A function
  mirrors the method; the lemmas about it state each stage's effect on the result.
- `CacheKeyPolicy` models `getRequestCacheKey` and `normalizeRequestHeaders`
  (`src/get-request-cache-key.js`): the early-return refusal chain, the two ways of
  building the key, and the in-place header whitelist loop.
- `ResponseSanitizer` models `normalizeResponseHeaders` and the header edits of `fetchRequest`
  (`src/fetch-request.js`): the whitelist loop, the forced `cache-control`, and the loop
  that sets every CORS header.
- `OriginResolver` models `resolveRequest` (`src/resolve-request.js`): decode the path, then
  for an Unsplash image inside a Notion URL add `w=1920&fit=max` and `auto=format` where
  they are missing, and re-encode.
- `OptionsHandler` models `handleOptions` (`src/handle-options.js`): a preflight answer or a
  plain `Allow` answer.

The supporting modules are:

- `Wrappers`: `Option`, and a `Result` whose errors are `new URL`'s `TypeError` and the
  decoders' `URIError`.
- `Text`: the string and regular-expression operations the code uses, written out.
- `SearchParams`: `URLSearchParams.has`, `set` and the stable `sort` of section 6.2 of the
  WHATWG URL Standard.
- `Url`: a simplified WHATWG URL parser, serializer and setters.
- `Http`: header maps, `Request`, `Response`, and a `Headers` class whose methods mutate
  its entries in place.

The runtime codecs are function-valued parameters: `decodeURI` and `decodeURIComponent`
(`string -> Option<string>`, `None` for a malformed escape) and `encodeURIComponent`. The
CORS header map is a parameter too.

When normalization changes the URL, the key is `new Request(normalizedUrl, { method })`
(`src/get-request-cache-key.js:29-31`), so it carries none of the request's headers
(`CacheKeyPolicy.ChangedUrlKey`). A header-preserving variant is not modelled.

## Model

| member | source | states |
|---|---|---|
| Text.Trim | src/get-request-cache-key.js:19 | `trim` removes white space only: the result is a contiguous middle part of the input, with white space before and after it and none at its ends |
| Text.JoinSplit | src/get-request-cache-key.js:19 | splitting on `,` loses nothing: joining the pieces gives the header value back |
| SearchParams.Set | src/resolve-request.js:23-28 | `searchParams.set`: the name then has exactly one pair, with the new value; other names' pairs are unchanged; an absent name is appended at the end |
| SearchParams.SetHas | src/resolve-request.js:22-27 | after `set` the name is present, and the presence of every other name is unchanged |
| SearchParams.SortIsStableSort | src/normalize-url.js:43 | `searchParams.sort()` is a stable sort: names non-decreasing, the same pairs (multiset), each name's pairs in input order |
| SearchParams.StableSortUnique | src/normalize-url.js:43 | two lists sorted by name that agree on each name's pairs are equal, so there is only one stable sort |
| SearchParams.SortDependsOnlyOnNamed | src/normalize-url.js:43 | inputs that differ only in the relative order of differently named pairs sort to the same list |
| Url.Parse | src/normalize-url.js:10 | every URL `new URL` accepts has a valid lower-case host, a non-default 16-bit port, and a path that starts with `/` and holds no `\`; its parameter list is read from its query text |
| Url.ParseSerialize | src/normalize-url.js:48 | `toString()` then `new URL` gives the same URL back, for a parsed URL whose components hold no space, control character, or `?`/`#` that would end them early |
| Url.SetProtocol | src/normalize-url.js:13 | the protocol setter changes only scheme and port; the port goes when it is the new scheme's default; an unknown protocol is ignored |
| Url.SetPathname | src/normalize-url.js:29 | the pathname setter changes only the path; the path always starts with `/`; an empty value gives `/`; an absolute value without `\` is kept |
| Url.SetHostname | src/normalize-url.js:39 | the hostname setter lower-cases a valid host and refuses an invalid or empty one |
| Url.SetParams | src/normalize-url.js:43 | writing back the parameter list changes only the query and the list: the query text is rewritten from the list, and an empty list removes it |
| Text.DropTrailing | src/normalize-url.js:46 | `replace(/\/$/, '')` (and `replace(/\.$/, '')` at line 39): one trailing occurrence of the character goes; text that does not end in it is unchanged |
| Text.ReplaceAllAbsent | src/normalize-url.js:55 | a global replacement of a pattern that does not occur leaves the text unchanged |
| UrlNormalizer.CollapseSlashesNoStray | src/normalize-url.js:29 | after the replacement, every double slash in the path directly follows `http:` or `https:` |
| UrlNormalizer.CollapseUnchangedIff | src/normalize-url.js:29 | the replacement leaves a path unchanged exactly when it has no double slash outside a scheme |
| UrlNormalizer.CollapseIdempotent | src/normalize-url.js:29 | replacing twice gives what replacing once gives |
| UrlNormalizer.CollapseKeepsOtherChars | src/normalize-url.js:29 | the replacement removes only slashes; every other character stays, in order |
| UrlNormalizer.CollapseKeepsLeadingSlash | src/normalize-url.js:29 | a path starting with `/` still does after the replacement |
| UrlNormalizer.CollapseSlashesKeepsRuns | src/normalize-url.js:29 | no run of slashes vanishes: shortening every run to one slash gives the same text before and after the replacement, so each replaced run becomes exactly one `/` |
| UrlNormalizer.CollapseSplit | src/normalize-url.js:29 | the replacement of a text that does not end in `/`, followed by more text, is the replacement of the first part followed by that of the rest read with the first part as look-behind |
| UrlNormalizer.SchemeSlashesKept | src/normalize-url.js:29 | a `//` directly after `http:` or `https:` is kept: the output for that text continues the output for the part before it with `//` |
| UrlNormalizer.EncodeNestedSchemeLeavesNone | src/normalize-url.js:55 | no `https:%2F%2F` is left after the global replacement |
| UrlNormalizer.EncodeNestedSchemeIdempotent | src/normalize-url.js:55 | applying the replacement twice gives what applying it once gives |
| UrlNormalizer.UpgradeProtocol | src/normalize-url.js:12-14 | `http` becomes `https` and any other scheme stays; the port goes only when it is 443 on `http`; nothing else changes |
| UrlNormalizer.CollapsePath | src/normalize-url.js:28-30 | only the path changes; for a parsed path it becomes the collapsed path |
| UrlNormalizer.DecodedPathShape | src/normalize-url.js:33-35 | decoding changes only the path; a non-empty path that decodes starts with `/`, holds no backslash, and is the decoded text itself when that already starts with `/` and holds no backslash |
| UrlNormalizer.StripHostDot | src/normalize-url.js:37-40 | only the host changes: one trailing dot goes, except from a host that is a lone dot, which the setter refuses to empty |
| UrlNormalizer.SortQuery | src/normalize-url.js:43 | only the query changes: the list is stably sorted and keeps its pairs; the query text is rewritten from the sorted list, and disappears when the list is empty |
| UrlNormalizer.StripPathSlash | src/normalize-url.js:46 | only the path changes: one trailing slash goes, and the root path stays `/` |
| UrlNormalizer.Render | src/normalize-url.js:48-55 | the final string holds no `https:%2F%2F` |
| UrlNormalizer.NormalizeUrl | src/normalize-url.js:9-58 | the step-by-step edits of the URL object and of the string give the normalizer's result, or the exception `new URL` or `decodeURI` throws |
| UrlNormalizer.NormalizedRecordFails | src/normalize-url.js:33-35 | normalizing a parsed URL fails exactly when `decodeURI` rejects the collapsed path, with a URIError for that path |
| UrlNormalizer.NormalizedRecordStages | src/normalize-url.js:12-46 | a URL whose path decodes normalizes to the host, sort and slash edits applied to the upgraded URL with the decoded path |
| UrlNormalizer.NormalizedScheme | src/normalize-url.js:12-14 | the normal form's scheme is `https` for `http` and unchanged otherwise; the port is kept except 443 on `http` |
| UrlNormalizer.NormalizedHost | src/normalize-url.js:37-40 | the normal form's host is the host less one trailing dot (so a host other than a lone dot that ends in a dot is one character shorter), and nothing else about it changes |
| UrlNormalizer.NormalizedQueryAndFragment | src/normalize-url.js:43 | the normal form's parameters are a stable sort of the input's, with no query left when there were none; the fragment is kept verbatim |
| UrlNormalizer.NormalizedPath | src/normalize-url.js:45-46 | the normal form's path is the decoded path less one trailing slash, and `/` for the root |
| UrlNormalizer.NormalizedWellFormed | src/normalize-url.js:12-46 | the edits keep a parsed URL well formed: valid lower-case host, non-default 16-bit port, path starting with `/` |
| UrlNormalizer.NormalizedHostNotIdempotent | src/normalize-url.js:37-40 | normalization is not idempotent: a host ending in two dots loses one per pass, so a second pass changes the host again |
| UrlNormalizer.NormalizedPlainPath | src/normalize-url.js:29-46 | when decoding changes nothing, the normal form's path is the collapsed path less one trailing slash |
| UrlNormalizer.RenderRoot | src/normalize-url.js:50-53 | a root URL without query or fragment is written without a trailing slash |
| UrlNormalizer.RenderKeepsSerialization | src/normalize-url.js:48-53 | with a path other than `/` or a non-empty hash, the string is the serialization with only the nested-scheme replacement applied |
| UrlNormalizer.NormalizedFails | src/normalize-url.js:10-35 | `normalizeUrl` throws exactly when `new URL` rejects the input or `decodeURI` rejects the collapsed path |
| UrlNormalizer.RejectsMissingHost | src/normalize-url.js:10 | nothing but slashes after the scheme is an invalid URL |
| UrlNormalizer.RejectsEmptyHost | src/normalize-url.test.js:114-116 | `http://` does not parse |
| UrlNormalizer.RejectsRelative | src/normalize-url.js:10 | input starting with `/` does not parse without a base |
| UrlNormalizer.RejectsRelativeExamples | src/normalize-url.test.js:118-124 | `/` and `/relative/path/` do not parse |
| UrlNormalizer.UpgradeAndSortIdentify | src/normalize-url.js:12-43 | an `http` URL and the `https` URL with the same host, port, path and fragment, whose parameters differ only in the order of differently named pairs, normalize to the same result |
| Http.Lookup | src/get-request-cache-key.js:6 | `headers.get`: the value exactly when the name is present, `null` otherwise |
| Http.Whitelisted | src/get-request-cache-key.js:41-59 | the filtered headers are the names in both the map and the whitelist, with their values |
| Http.WhitelistedIdempotent | src/fetch-request.js:53-61 | filtering twice with one whitelist is filtering once |
| Http.Headers.Get | src/get-request-cache-key.js:6 | the `Headers` getter is a lookup in the current entries |
| Http.Headers.Set | src/fetch-request.js:39-46 | `headers.set` adds or replaces one entry and changes nothing else |
| Http.Headers.Delete | src/fetch-request.js:59 | `headers.delete` removes one entry and changes nothing else |
| Http.DeleteUnlisted | src/get-request-cache-key.js:50-57 | the loop over a snapshot of the names, deleting every name outside the whitelist, leaves exactly the whitelisted entries with their values |
| Http.SetEach | src/fetch-request.js:45-47 | the loop that sets every CORS header leaves the old entries overridden by the CORS map |
| CacheKeyPolicy.NormalizeRequestHeaders | src/get-request-cache-key.js:49-60 | the request headers are filtered in place to the five-name whitelist |
| CacheKeyPolicy.GetRequestCacheKey | src/get-request-cache-key.js:3-39 | the early-return chain, with every exception caught, computes the cache key |
| CacheKeyPolicy.CacheKeyExistsIff | src/get-request-cache-key.js:3-39 | there is a key exactly when there is no `pragma: no-cache`, the method is read-only, `cache-control` does not forbid caching, the URL normalizes, and a changed URL parses |
| CacheKeyPolicy.PragmaNoCache | src/get-request-cache-key.js:6-9 | `pragma: no-cache` yields no key |
| CacheKeyPolicy.OnlyReadOnlyMethods | src/get-request-cache-key.js:12-14 | a key exists only for `GET` and `HEAD` |
| CacheKeyPolicy.CacheControlRefuses | src/get-request-cache-key.js:17-23 | a `cache-control` value with a trimmed comma-separated piece `no-store` or `no-cache` yields no key |
| CacheKeyPolicy.FailedNormalizationGivesNoKey | src/get-request-cache-key.js:35-38 | a URL the normalizer rejects yields no key instead of an exception |
| CacheKeyPolicy.KeyHeadersWhitelisted | src/get-request-cache-key.js:41-59 | a key keeps the method and carries only whitelisted header names |
| CacheKeyPolicy.UnchangedUrlKey | src/get-request-cache-key.js:34 | an unchanged URL gives a key with the original URL, every whitelisted request header with its value, and no header the request lacks |
| CacheKeyPolicy.ChangedUrlKey | src/get-request-cache-key.js:28-32 | a changed URL gives a key for the normalized URL, serialized by the URL parser, with the method and no headers |
| CacheKeyPolicy.SameNormalFormSameKey | src/get-request-cache-key.js:28-32 | two requests with one method whose URLs change to the same normal form share their key, whatever their headers |
| CacheKeyPolicy.HeaderLossSplitsKey | src/get-request-cache-key.js:28-34 | two requests whose URLs share a normal form can get different keys: the one already in normal form keeps a whitelisted header that the other's key drops |
| ResponseSanitizer.NormalizeResponseHeaders | src/fetch-request.js:53-64 | the response headers are filtered in place to the eight-name whitelist |
| ResponseSanitizer.SanitizeResponse | src/fetch-request.js:31-50 | status and body pass through; the headers are the whitelisted origin headers, then the fixed `cache-control`, then the CORS map |
| ResponseSanitizer.SanitizedNames | src/fetch-request.js:36-47 | a header survives exactly when it is a CORS header, `cache-control`, or a whitelisted origin header |
| ResponseSanitizer.CorsOverrides | src/fetch-request.js:45-47 | every CORS header has the CORS value, whatever the origin sent |
| ResponseSanitizer.CacheControlForced | src/fetch-request.js:39-42 | `cache-control` is the fixed directive, whatever the origin sent, unless the CORS map sets it |
| ResponseSanitizer.WhitelistedKept | src/fetch-request.js:54-61 | a whitelisted origin header that the CORS map does not set keeps its value |
| ResponseSanitizer.SanitizeIdempotent | src/fetch-request.js:36-47 | sanitizing already sanitized headers changes nothing |
| OptionsHandler.HandleOptions | src/handle-options.js:3-29 | CORS headers exactly when all three preflight headers are present, `Allow` exactly otherwise; the same method list either way; a `null` body and status 200 |
| OptionsHandler.PreflightResponse | src/handle-options.js:5-19 | a preflight gets exactly `Access-Control-Allow-Origin: *`, the method list, and the requested headers echoed back |
| OptionsHandler.PlainOptionsResponse | src/handle-options.js:20-27 | a request missing any of the three gets only `Allow` with the method list |
| OriginResolver.UnsplashDefaultsAppended | src/resolve-request.js:22-29 | the existing parameters stay as they were; `w=1920&fit=max` is appended only when neither `w` nor `fit` is present; `auto=format` is appended only when `auto` is absent |
| OriginResolver.ExplicitSizeKept | src/resolve-request.js:22-25 | an explicit `w` or `fit` suppresses both size defaults, so both names keep their pairs |
| OriginResolver.ExplicitAutoKept | src/resolve-request.js:27-29 | an explicit `auto` is kept as it was, whatever the size decision |
| OriginResolver.OtherParamsKept | src/resolve-request.js:19-29 | parameters other than `w`, `fit` and `auto` are never touched |
| OriginResolver.UnsplashImage | src/resolve-request.js:19-29 | the image URL gets the defaulted parameter list; its query text is kept as written when no `set` runs and rewritten from the list when one does; nothing else changes |
| OriginResolver.AddUnsplashDefaults | src/resolve-request.js:20-29 | the conditional `set` calls on the image URL give the URL with the defaulted parameter list |
| OriginResolver.ResolveNotionUri | src/resolve-request.js:13-34 | the Notion block fails exactly when the inner URI does not decode or parse, gives the Unsplash-defaulted inner URL behind the Notion prefix for an Unsplash host, and keeps `originUri` otherwise |
| OriginResolver.ResolveRequest | src/resolve-request.js:7-40 | the reassignments of `originUri` give the resolver's result or exception; a resolved request keeps the method and headers |
| OriginResolver.PlainOriginUnchanged | src/resolve-request.js:8-12 | outside Notion's image service, the origin URI is the decoded path without its first character, unchanged |
| OriginResolver.NotionNonUnsplashUnchanged | src/resolve-request.js:8-19 | for a proxy path that decodes to a Notion image URL whose inner URL decodes and parses with a host other than Unsplash, the origin URI is that decoded Notion URL, unchanged |
| OriginResolver.NotionUnsplashRewritten | src/resolve-request.js:8-33 | for a proxy path that decodes to a Notion image URL whose inner URL decodes and parses with the Unsplash host, the origin URI is the Notion prefix followed by the encoded inner URL after the Unsplash defaults |
| OriginResolver.InnerParseFailure | src/resolve-request.js:13-16 | an inner URL that does not parse makes the resolver throw |
| OriginResolver.ResolvedRequest | src/resolve-request.js:37 | the origin request has the origin URI, as the URL parser serializes it, and the proxy request's method and headers |

## Left out

- The URL parser is a simplified WHATWG basic URL parser. It handles the special
  schemes `http`, `https`, `ws`, `wss` and `ftp`, but not the special scheme `file`. It
  has no credentials, no IDNA or punycode, no IPv6 or IPv4 host parsing, no dot-segment
  resolution, and no percent-encoding of the path, host or query.
- Url.Parse: rejects `file:` URLs and every non-special scheme (`data:`, `blob:`,
  `mailto:` and the like), which `new URL` accepts with an opaque path. So a Notion inner
  URL with such a scheme makes `OriginResolver.ResolveRequest` throw, where the runtime
  passes the URI through unchanged (its host is not Unsplash). A request or normal form
  with such a scheme gets no cache key from `CacheKeyPolicy.CacheKey`, where the runtime
  may build one.
- Url.ParseSerialize: stated only for URLs whose path, query and fragment hold no space
  or control character, and no `?` or `#` that would end the component early. The
  runtime's serializer percent-encodes those characters; this parser does not.
- The query text is kept as written, and both `?v` and `?v=` read as the pair `v` with an
  empty value. It is rewritten from the parameter list only where `set` or `sort` runs
  the URLSearchParams update steps; the rewrite writes `name=value` for every pair and
  drops empty pieces. Names and values keep their raw text, without form encoding or
  decoding. In the runtime, `sort()` re-serializes values form-encoded, so a `/` at the
  end of the last value becomes `%2F`. The model keeps the raw `/`, which the string edit
  at `src/normalize-url.js:52` could then drop. The root-path claims (`RenderRoot`) are
  stated only for URLs without a query.
- `decodeURI`, `decodeURIComponent` and `encodeURIComponent` are parameters. Their
  escape semantics are builtins of the runtime.
- `StrLe` orders names by code point. The runtime's `sort()` compares UTF-16 code units.
  The two differ only for names containing characters outside the Basic Multilingual
  Plane.
- Header names are assumed lower-case, the form `headers.entries()` yields. `Headers`
  case-folding is not modelled.
- The CORS header map (`global-res-headers`) is a parameter. The loop sets its entries in
  an unspecified order; the ordering is immaterial because the names are distinct.
- Requests and responses are values. A `Headers` object is used only where the source
  mutates one.
- `src/index.js` is not part of this model. That covers the event wiring, the `OPTIONS`
  dispatch, the timing header, the JSON error responses and console logging.
- The `fetch` call, with its Cloudflare `cf` options, is not part of this model.
- `fetch-cache` is not part of this model: the cache store and its single-flight
  concurrency.
- The `event` argument of `resolveRequest` is unused by the source and is not modelled.
- Request bodies are not modelled. The proxy never reads them.
- UrlNormalizer.NormalizeUrl: the normalizer is not idempotent. Each pass removes one
  trailing dot from the host (`NormalizedHostNotIdempotent`), and each pass runs
  `decodeURI` once, so `/%2541` becomes `/%41` and then `/A`. The lemmas state each
  stage's effect on a parsed URL. Tests on literal URL strings are not restated as
  lemmas: the ones about IDNA, dot segments and form encoding depend on the parser parts
  left out.
