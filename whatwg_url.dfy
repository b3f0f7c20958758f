/** The part of the runtime's WHATWG `URL` object that the proxy relies on: parsing an
    absolute URL with a special scheme into its components, serializing it back, and the
    setters the normalizer calls. This is a simplified model of the URL Standard's basic
    URL parser and serializer (see README, "Left out"). */
module Url {
  import opened Wrappers
  import opened Text
  import opened SearchParams

  /** The special schemes this model parses. */
  datatype Scheme = Http | Https | Ws | Wss | Ftp

  /** The `url.protocol` getter: the scheme followed by `:`. */
  function Protocol(s: Scheme): (r: string)
    ensures |r| >= 3 && r[|r| - 1] == ':'
  {
    match s
    case Http => "http:"
    case Https => "https:"
    case Ws => "ws:"
    case Wss => "wss:"
    case Ftp => "ftp:"
  }

  /** The scheme named by a `protocol` value (ending in `:`), if it is special. */
  function SchemeOf(protocol: string): (r: Option<Scheme>)
    ensures r.Some? ==> Protocol(r.value) == protocol
  {
    if protocol == "http:" then Some(Http)
    else if protocol == "https:" then Some(Https)
    else if protocol == "ws:" then Some(Ws)
    else if protocol == "wss:" then Some(Wss)
    else if protocol == "ftp:" then Some(Ftp)
    else None
  }

  lemma SchemeOfProtocol(s: Scheme)
    ensures SchemeOf(Protocol(s)) == Some(s)
  {
  }

  function DefaultPort(s: Scheme): nat {
    match s
    case Http => 80
    case Https => 443
    case Ws => 80
    case Wss => 443
    case Ftp => 21
  }

  /** A parsed URL with the getters of the `URL` interface as fields. `port` is `None`
      for the scheme's default port; `query` is `None` when the URL has no `?` and
      otherwise the query text after it; `searchParams` is the name-value list of the
      URL's `URLSearchParams` object; `fragment` is `None` when the URL has no `#`.
      The query text is what `toString()` writes; it is rewritten from the list only
      when `set` or `sort` runs the URLSearchParams update steps. */
  datatype Url = Url(
    scheme: Scheme,
    hostname: string,
    port: Option<nat>,
    pathname: string,
    query: Option<string>,
    searchParams: seq<Param>,
    fragment: Option<string>)

  /** The list a `URLSearchParams` object is initialised with from a query. */
  function QueryParams(query: Option<string>): seq<Param> {
    match query
    case None => []
    case Some(q) => ParseQuery(q)
  }

  /** The `url.hash` getter: empty when there is no fragment or an empty one. */
  function Hash(u: Url): string {
    match u.fragment
    case None => ""
    case Some(f) => if f == "" then "" else "#" + f
  }

  // ---------------------------------------------------------------------------
  // Serializing (`url.toString()`, `url.href`)

  function SerializeParam(p: Param): string {
    p.name + "=" + p.value
  }

  function SerializeParams(ps: seq<Param>): string
    decreases |ps|
  {
    if ps == [] then []
    else if |ps| == 1 then SerializeParam(ps[0])
    else SerializeParam(ps[0]) + "&" + SerializeParams(ps[1..])
  }

  /** The host part: the host name, followed by `:port` unless the port is the default. */
  function Authority(u: Url): string {
    u.hostname + (match u.port case None => "" case Some(p) => ":" + DecimalString(p))
  }

  function Serialize(u: Url): string {
    Protocol(u.scheme) + "//" + Authority(u) + u.pathname
    + (match u.query case None => "" case Some(q) => "?" + q)
    + (match u.fragment case None => "" case Some(f) => "#" + f)
  }

  // ---------------------------------------------------------------------------
  // Parsing (`new URL(input)` without a base)

  /** Index of the first character of `s` that belongs to `stops`, or `|s|`. */
  function FirstOf(s: string, stops: set<char>): (i: nat)
    ensures i <= |s|
    ensures i < |s| ==> s[i] in stops
    ensures forall k :: 0 <= k < i ==> s[k] !in stops
  {
    if s == [] then 0 else if s[0] in stops then 0 else 1 + FirstOf(s[1..], stops)
  }

  /** Leading and trailing C0 control or space characters are removed from the input. */
  function TrimControl(s: string): (r: string)
    ensures |r| <= |s|
    decreases |s|
  {
    if s != [] && s[0] <= ' ' then TrimControl(s[1..])
    else if s != [] && s[|s| - 1] <= ' ' then TrimControl(s[..|s| - 1])
    else s
  }

  /** ASCII tab and newline characters are removed anywhere in the input. */
  function RemoveTabNewline(s: string): (r: string)
    ensures |r| <= |s|
    ensures forall k :: 0 <= k < |r| ==> r[k] !in {'\t', '\n', '\r'}
  {
    if s == [] then []
    else (if s[0] in {'\t', '\n', '\r'} then [] else [s[0]]) + RemoveTabNewline(s[1..])
  }

  /** Special URLs treat `\` as `/`. */
  function BackslashToSlash(s: string): (r: string)
    ensures |r| == |s|
    ensures forall k :: 0 <= k < |s| ==> r[k] == if s[k] == '\\' then '/' else s[k]
  {
    if s == [] then [] else [if s[0] == '\\' then '/' else s[0]] + BackslashToSlash(s[1..])
  }

  /** Drops the slashes (of either kind) after `scheme:`. */
  function SkipSlashes(s: string): (r: string)
    ensures |r| <= |s| && r == s[|s| - |r|..]
    ensures r == [] || r[0] !in {'/', '\\'}
  {
    if s != [] && s[0] in {'/', '\\'} then SkipSlashes(s[1..]) else s
  }

  predicate IsAsciiAlpha(c: char) { ('a' <= c <= 'z') || ('A' <= c <= 'Z') }
  predicate IsAsciiDigit(c: char) { '0' <= c <= '9' }

  predicate IsSchemeChar(c: char) {
    IsAsciiAlpha(c) || IsAsciiDigit(c) || c == '+' || c == '-' || c == '.'
  }

  /** Code points a host may not contain (forbidden domain code points, with `%` since
      percent-decoding of hosts is not modelled). */
  predicate IsForbiddenHostChar(c: char) {
    c <= ' ' || c == '#' || c == '%' || c == '/' || c == ':' || c == '<' || c == '>'
    || c == '?' || c == '@' || c == '[' || c == '\\' || c == ']' || c == '^' || c == '|'
    || c == '\U{007F}'
  }

  predicate ValidHost(h: string) {
    h != [] && forall k :: 0 <= k < |h| ==> !IsForbiddenHostChar(h[k])
  }

  predicate AllDigits(s: string) {
    forall k :: 0 <= k < |s| ==> IsAsciiDigit(s[k])
  }

  function DecimalValue(s: string): nat
    requires AllDigits(s)
    decreases |s|
  {
    if s == [] then 0 else DecimalValue(s[..|s| - 1]) * 10 + (s[|s| - 1] as int - '0' as int)
  }

  function DecimalString(n: nat): (r: string)
    ensures r != [] && AllDigits(r)
  {
    if n < 10 then [('0' as int + n) as char]
    else DecimalString(n / 10) + [('0' as int + n % 10) as char]
  }

  /** The port as the URL records it: `None` for no port or the scheme's default. */
  function CanonicalPort(s: Scheme, digits: string): (r: Option<nat>)
    requires AllDigits(digits)
    ensures r.Some? ==> r.value != DefaultPort(s) && r.value == DecimalValue(digits)
  {
    if digits == [] || DecimalValue(digits) == DefaultPort(s) then None
    else Some(DecimalValue(digits))
  }

  /** Splits an authority into host name and port; `None` when either is invalid. */
  function ParseHostPort(s: Scheme, authority: string): (r: Option<(string, Option<nat>)>)
    ensures r.Some? ==> ValidHost(r.value.0) && IsLowerAscii(r.value.0)
    ensures r.Some? && r.value.1.Some? ==>
      r.value.1.value != DefaultPort(s) && r.value.1.value <= 65535
  {
    var c := IndexOf(authority, ':');
    var host := authority[..c];
    var digits := if c < |authority| then authority[c + 1..] else "";
    if !ValidHost(host) || !AllDigits(digits) then None
    else if digits != [] && DecimalValue(digits) > 65535 then None
    else
      assert forall k :: 0 <= k < |host| ==> ToLower(host)[k] == LowerChar(host[k]);
      ToLowerIsLower(host);
      Some((ToLower(host), CanonicalPort(s, digits)))
  }

  /** The query as a name-value list: pieces between `&`, empty pieces skipped, each
      split at its first `=`. */
  function ParseQuery(q: string): seq<Param> {
    ParsePieces(Split(q, '&'))
  }

  function ParsePieces(pieces: seq<string>): seq<Param> {
    if pieces == [] then []
    else if pieces[0] == [] then ParsePieces(pieces[1..])
    else
      var e := IndexOf(pieces[0], '=');
      [Param(pieces[0][..e], if e < |pieces[0]| then pieces[0][e + 1..] else "")]
      + ParsePieces(pieces[1..])
  }

  /** What follows the authority: the path (`/` when empty), then `?query`, then
      `#fragment`. */
  function ParseTail(s: Scheme, host: string, port: Option<nat>, tail: string): (u: Url)
    requires tail == [] || tail[0] in {'/', '\\', '?', '#'}
    ensures u.scheme == s && u.hostname == host && u.port == port
    ensures StartsWith(u.pathname, "/") && '\\' !in u.pathname
    ensures u.searchParams == QueryParams(u.query)
  {
    var q := FirstOf(tail, {'?', '#'});
    var path := BackslashToSlash(tail[..q]);
    assert path != [] ==> path[0] == '/';
    var after := tail[q..];
    var h := IndexOf(after, '#');
    var query := if after != [] && after[0] == '?' then Some(after[1..h]) else None;
    Url(
      s,
      host,
      port,
      if path == [] then "/" else path,
      query,
      QueryParams(query),
      if h < |after| then Some(after[h + 1..]) else None)
  }

  predicate IsSchemeText(s: string) {
    s != [] && IsAsciiAlpha(s[0]) && forall k :: 0 <= k < |s| ==> IsSchemeChar(s[k])
  }

  /** What every URL the parser returns satisfies: a valid lower-case host, a port that
      is not the default and fits in 16 bits, and a path that starts with `/` and holds
      no `\`. */
  predicate WellFormed(u: Url) {
    ValidHost(u.hostname) && IsLowerAscii(u.hostname)
    && (u.port.Some? ==> u.port.value != DefaultPort(u.scheme) && u.port.value <= 65535)
    && StartsWith(u.pathname, "/") && '\\' !in u.pathname
  }

  /** Parsing after `scheme:`: the slashes, then the authority up to the first `/`, `\`,
      `?` or `#`, then the rest. */
  function ParseAfterScheme(input: string, s: Scheme, rest: string): (r: Result<Url>)
    ensures r.Ok? ==> r.value.scheme == s && WellFormed(r.value)
    ensures r.Ok? ==> r.value.searchParams == QueryParams(r.value.query)
  {
    var t := SkipSlashes(rest);
    var a := FirstOf(t, {'/', '\\', '?', '#'});
    var hp := ParseHostPort(s, t[..a]);
    if hp.None? then Err(InvalidUrl(input))
    else
      assert a < |t| ==> t[a..][0] in {'/', '\\', '?', '#'};
      Ok(ParseTail(s, hp.value.0, hp.value.1, t[a..]))
  }

  /** `new URL(input)`: fails (a TypeError in JavaScript) on relative input, an unknown
      or invalid scheme, an empty or invalid host, and an invalid port. */
  function Parse(input: string): (r: Result<Url>)
    ensures r.Ok? ==> WellFormed(r.value)
    ensures r.Ok? ==> r.value.searchParams == QueryParams(r.value.query)
  {
    var s := RemoveTabNewline(TrimControl(input));
    var colon := IndexOf(s, ':');
    if colon == |s| || !IsSchemeText(s[..colon]) then Err(InvalidUrl(input))
    else
      match SchemeOf(ToLower(s[..colon]) + ":")
      case None => Err(InvalidUrl(input))
      case Some(scheme) => ParseAfterScheme(input, scheme, s[colon + 1..])
  }

  // ---------------------------------------------------------------------------
  // Setters

  /** `url.protocol = value` for a special scheme: the port is dropped when it is the new
      scheme's default. Other values are ignored. */
  function SetProtocol(u: Url, value: string): (r: Url)
    ensures SchemeOf(value).None? ==> r == u
    ensures SchemeOf(value).Some? ==> r.scheme == SchemeOf(value).value
    ensures r == u.(scheme := r.scheme, port := r.port)
    ensures SchemeOf(value).Some? ==>
      r.port == if u.port == Some(DefaultPort(r.scheme)) then None else u.port
  {
    match SchemeOf(value)
    case None => u
    case Some(s) => u.(scheme := s, port := if u.port == Some(DefaultPort(s)) then None else u.port)
  }

  /** `url.pathname = value` on a special URL: `\` becomes `/`, a leading `/` is added when
      missing, and the empty path becomes `/`. */
  function SetPathname(u: Url, value: string): (r: Url)
    ensures r == u.(pathname := r.pathname)
    ensures StartsWith(r.pathname, "/") && '\\' !in r.pathname
    ensures value == [] ==> r.pathname == "/"
    ensures value != [] && value[0] == '/' && '\\' !in value ==> r.pathname == value
  {
    var v := BackslashToSlash(value);
    assert '\\' !in value ==> v == value;
    u.(pathname := if v == [] then "/" else if v[0] == '/' then v else "/" + v)
  }

  /** `url.hostname = value`: an empty or invalid host is refused and leaves the URL as it
      was; a valid one is lower-cased. */
  function SetHostname(u: Url, value: string): (r: Url)
    ensures ValidHost(value) ==> r == u.(hostname := ToLower(value))
    ensures !ValidHost(value) ==> r == u
  {
    if ValidHost(value) then u.(hostname := ToLower(value)) else u
  }

  /** The URLSearchParams update steps after `set` or `sort`: the query is rewritten from
      the list, and removed when the list is empty. */
  function SetParams(u: Url, ps: seq<Param>): (r: Url)
    ensures r.searchParams == ps
    ensures r.query == if ps == [] then None else Some(SerializeParams(ps))
    ensures r == u.(query := r.query, searchParams := r.searchParams)
  {
    u.(query := if ps == [] then None else Some(SerializeParams(ps)), searchParams := ps)
  }

  // ---------------------------------------------------------------------------
  // Serializing, then parsing back

  /** No C0 control and no space: what the serializer leaves in a URL's components once
      it has percent-encoded them. */
  predicate NoSpaceOrControl(s: string) {
    forall k :: 0 <= k < |s| ==> s[k] > ' '
  }

  /** A URL as the parser produces it from a serialized URL: well formed, its parameter
      list read from its query, each component free of the characters that would end it
      early or be trimmed. */
  predicate Canonical(u: Url) {
    WellFormed(u) && u.searchParams == QueryParams(u.query)
    && NoSpaceOrControl(u.pathname) && '?' !in u.pathname && '#' !in u.pathname
    && (u.query.Some? ==> NoSpaceOrControl(u.query.value) && '#' !in u.query.value)
    && (u.fragment.Some? ==> NoSpaceOrControl(u.fragment.value))
  }

  function QueryPart(query: Option<string>): string {
    match query case None => "" case Some(q) => "?" + q
  }

  function FragmentPart(fragment: Option<string>): string {
    match fragment case None => "" case Some(f) => "#" + f
  }

  /** The text after the authority: path, then `?query`, then `#fragment`. */
  function PathAndAfter(u: Url): string {
    u.pathname + (QueryPart(u.query) + FragmentPart(u.fragment))
  }

  lemma SerializeParts(u: Url)
    ensures Serialize(u) == Protocol(u.scheme) + ("//" + Authority(u) + PathAndAfter(u))
  {
  }

  /** `toString()` followed by `new URL` gives the same URL back. */
  lemma ParseSerialize(u: Url)
    requires Canonical(u)
    ensures Parse(Serialize(u)) == Ok(u)
  {
    var p, rest := Protocol(u.scheme), "//" + Authority(u) + PathAndAfter(u);
    SerializeParts(u);
    SerializedPrintable(u);
    ParseAfterProtocol(Serialize(u), u.scheme, rest);
    AfterSchemeSerialized(Serialize(u), u);
  }

  /** A printable input made of a protocol and more text parses as that scheme. */
  lemma ParseAfterProtocol(input: string, s: Scheme, rest: string)
    requires input == Protocol(s) + rest && NoSpaceOrControl(input)
    ensures Parse(input) == ParseAfterScheme(input, s, rest)
  {
    var p := Protocol(s);
    TrimControlPrintable(input);
    NoSpaceNoTab(input);
    RemoveTabNewlineUnchanged(input);
    var t := RemoveTabNewline(TrimControl(input));
    assert t == input;
    ProtocolThenColon(s, rest);
    var colon := IndexOf(t, ':');
    assert colon == |p| - 1 && colon != |t|;
    assert t[colon + 1..] == rest;
    assert IsSchemeText(t[..colon]);
    assert SchemeOf(ToLower(t[..colon]) + ":") == Some(s);
  }

  lemma TrimControlPrintable(s: string)
    requires NoSpaceOrControl(s)
    ensures TrimControl(s) == s
  {
    assert s == [] || (s[0] > ' ' && s[|s| - 1] > ' ');
  }

  lemma NoSpaceNoTab(s: string)
    requires NoSpaceOrControl(s)
    ensures forall k :: 0 <= k < |s| ==> s[k] !in {'\t', '\n', '\r'}
  {
  }

  lemma NoSpaceAppend(a: string, b: string)
    requires NoSpaceOrControl(a) && NoSpaceOrControl(b)
    ensures NoSpaceOrControl(a + b)
  {
  }

  lemma SerializedPrintable(u: Url)
    requires Canonical(u)
    ensures NoSpaceOrControl(Serialize(u))
  {
    var p, a, t := Protocol(u.scheme), Authority(u), PathAndAfter(u);
    AuthorityPrintable(u);
    PathAndAfterPrintable(u);
    SerializeParts(u);
    PrintableParts(p, a, t);
  }

  lemma PrintableParts(p: string, a: string, t: string)
    requires NoSpaceOrControl(p) && NoSpaceOrControl(a) && NoSpaceOrControl(t)
    ensures NoSpaceOrControl(p + ("//" + a + t))
  {
    var x := "//" + a + t;
    forall k | 0 <= k < |x| ensures x[k] > ' ' {
      if k >= 2 + |a| { assert x[k] == t[k - 2 - |a|]; }
      else if k >= 2 { assert x[k] == a[k - 2]; }
    }
    NoSpaceAppend(p, x);
  }

  lemma AuthorityPrintable(u: Url)
    requires WellFormed(u)
    ensures NoSpaceOrControl(Authority(u))
  {
    match u.port
    case None =>
    case Some(n) =>
      DigitsPrintable(DecimalString(n));
      NoSpaceAppend(u.hostname, ":" + DecimalString(n));
  }

  lemma PathAndAfterPrintable(u: Url)
    requires Canonical(u)
    ensures NoSpaceOrControl(PathAndAfter(u))
  {
    var q, f := QueryPart(u.query), FragmentPart(u.fragment);
    if u.query.Some? { NoSpaceAppend("?", u.query.value); }
    if u.fragment.Some? { NoSpaceAppend("#", u.fragment.value); }
    NoSpaceAppend(q, f);
    NoSpaceAppend(u.pathname, q + f);
  }

  lemma DigitsPrintable(s: string)
    requires AllDigits(s)
    ensures NoSpaceOrControl(":" + s)
  {
  }

  /** The first `:` ends the protocol, and its name is a valid scheme that names the same
      scheme again. */
  lemma ProtocolThenColon(s: Scheme, rest: string)
    ensures var p := Protocol(s);
      IndexOf(p + rest, ':') == |p| - 1
      && IsSchemeText((p + rest)[..|p| - 1])
      && SchemeOf(ToLower((p + rest)[..|p| - 1]) + ":") == Some(s)
  {
    var p := Protocol(s);
    var name := p[..|p| - 1];
    var x := p + rest;
    ProtocolName(s);
    assert x[..|p| - 1] == name;
    assert x[|p| - 1] == ':';
    assert forall k :: 0 <= k < |p| - 1 ==> x[k] == name[k];
    IndexOfFirst(x, ':', |p| - 1);
    ToLowerOfLower(name);
  }

  /** The protocol is a lower-case scheme name followed by `:`. */
  lemma ProtocolName(s: Scheme)
    ensures var p := Protocol(s); var name := p[..|p| - 1];
      IsSchemeText(name) && IsLowerAscii(name) && (forall k :: 0 <= k < |name| ==> name[k] != ':')
      && SchemeOf(name + ":") == Some(s)
  {
    var p := Protocol(s);
    var name := p[..|p| - 1];
    assert name + ":" == p;
    SchemeOfProtocol(s);
    match s
    case Http => assert name == "http";
    case Https => assert name == "https";
    case Ws => assert name == "ws";
    case Wss => assert name == "wss";
    case Ftp => assert name == "ftp";
  }

  /** `IndexOf` finds the first occurrence. */
  lemma IndexOfFirst(s: string, c: char, i: nat)
    requires i < |s| && s[i] == c && forall k :: 0 <= k < i ==> s[k] != c
    ensures IndexOf(s, c) == i
  {
  }

  lemma FirstOfIs(s: string, stops: set<char>, i: nat)
    requires i <= |s| && (i < |s| ==> s[i] in stops)
    requires forall k :: 0 <= k < i ==> s[k] !in stops
    ensures FirstOf(s, stops) == i
  {
  }

  lemma IndexOfIs(s: string, c: char, i: nat)
    requires i <= |s| && (i < |s| ==> s[i] == c)
    requires forall k :: 0 <= k < i ==> s[k] != c
    ensures IndexOf(s, c) == i
  {
  }

  lemma {:induction false} RemoveTabNewlineUnchanged(s: string)
    requires forall k :: 0 <= k < |s| ==> s[k] !in {'\t', '\n', '\r'}
    ensures RemoveTabNewline(s) == s
    decreases |s|
  {
    if s != [] {
      RemoveTabNewlineUnchanged(s[1..]);
      assert [s[0]] + s[1..] == s;
    }
  }

  lemma {:induction false} DecimalRoundTrip(n: nat)
    ensures DecimalValue(DecimalString(n)) == n
  {
    var s := DecimalString(n);
    if n >= 10 {
      DecimalRoundTrip(n / 10);
      assert s[..|s| - 1] == DecimalString(n / 10);
    }
  }

  /** Parsing after `scheme:` the text the serializer wrote there. */
  lemma AfterSchemeSerialized(input: string, u: Url)
    requires Canonical(u)
    ensures ParseAfterScheme(input, u.scheme, "//" + Authority(u) + PathAndAfter(u)) == Ok(u)
  {
    var a, t := Authority(u), PathAndAfter(u);
    var at := a + t;
    assert "//" + a + t == "//" + at;
    assert u.hostname != [] && u.hostname[0] !in {'/', '\\'};
    assert at[0] == u.hostname[0];
    SkipTwoSlashes(at);
    AuthorityEnds(u);
    assert at[..|a|] == a && at[|a|..] == t;
    HostPortSerialized(u);
    TailSerialized(u);
  }

  lemma SkipTwoSlashes(t: string)
    requires t != [] && t[0] !in {'/', '\\'}
    ensures SkipSlashes("//" + t) == t
  {
    var one, two := "/" + t, "//" + t;
    assert two[0] == '/' && two[1..] == one;
    assert one[0] == '/' && one[1..] == t;
    assert SkipSlashes(t) == t;
    assert SkipSlashes(one) == t;
  }

  /** The authority holds no `/`, `\`, `?` or `#`, and the path after it starts with `/`. */
  lemma AuthorityEnds(u: Url)
    requires Canonical(u)
    ensures FirstOf(Authority(u) + PathAndAfter(u), {'/', '\\', '?', '#'}) == |Authority(u)|
  {
    var a, t := Authority(u), PathAndAfter(u);
    var stops := {'/', '\\', '?', '#'};
    assert t[0] == '/';
    assert (a + t)[|a|] == t[0];
    assert forall k :: 0 <= k < |a| ==> a[k] !in stops by {
      if u.port.Some? {
        var d := DecimalString(u.port.value);
        assert a == u.hostname + (":" + d);
        forall k | |u.hostname| < k < |a| ensures a[k] !in stops {
          assert a[k] == d[k - |u.hostname| - 1];
        }
      }
    }
    FirstOfIs(a + t, stops, |a|);
  }

  lemma HostPortSerialized(u: Url)
    requires WellFormed(u)
    ensures ParseHostPort(u.scheme, Authority(u)) == Some((u.hostname, u.port))
  {
    var a := Authority(u);
    var h := u.hostname;
    assert ':' !in h;
    IndexOfIs(a, ':', |h|);
    assert a[..|h|] == h;
    ToLowerOfLower(h);
    match u.port
    case None =>
      assert a == h;
    case Some(n) =>
      var d := DecimalString(n);
      assert a == h + ":" + d;
      assert a[|h| + 1..] == d;
      DecimalRoundTrip(n);
  }

  /** Parsing the path, query and fragment the serializer wrote. */
  lemma TailSerialized(u: Url)
    requires Canonical(u)
    ensures ParseTail(u.scheme, u.hostname, u.port, PathAndAfter(u)) == u
  {
    var t := PathAndAfter(u);
    var after := QueryPart(u.query) + FragmentPart(u.fragment);
    var path := u.pathname;
    AfterPathStarts(u.query, u.fragment);
    FirstOfIs(t, {'?', '#'}, |path|);
    assert t[..|path|] == path && t[|path|..] == after;
    assert BackslashToSlash(path) == path;
    var h := IndexOf(after, '#');
    FragmentStarts(u.query, u.fragment);
    QueryRead(u.query, u.fragment, h);
    FragmentRead(u.query, u.fragment, h);
  }

  lemma AfterPathStarts(query: Option<string>, fragment: Option<string>)
    ensures var after := QueryPart(query) + FragmentPart(fragment);
      after == [] || after[0] in {'?', '#'}
  {
  }

  /** In the text after the path, the first `#` is the one that starts the fragment. */
  lemma FragmentStarts(query: Option<string>, fragment: Option<string>)
    requires query.Some? ==> '#' !in query.value
    ensures var q, f := QueryPart(query), FragmentPart(fragment);
      IndexOf(q + f, '#') == |q| && (q + f)[..|q|] == q && (q + f)[|q|..] == f
  {
    var q, f := QueryPart(query), FragmentPart(fragment);
    assert '#' !in q;
    assert f == [] || f[0] == '#';
    IndexOfIs(q + f, '#', |q|);
  }

  /** What comes before the `#`, less its `?`, is the query. */
  lemma QueryRead(query: Option<string>, fragment: Option<string>, h: nat)
    requires var q, f := QueryPart(query), FragmentPart(fragment);
      h == |q| && (q + f)[..h] == q
    ensures var after := QueryPart(query) + FragmentPart(fragment);
      (if after != [] && after[0] == '?' then Some(after[1..h]) else None) == query
  {
    var q, f := QueryPart(query), FragmentPart(fragment);
    var after := q + f;
    if query.Some? {
      assert after[0] == q[0] == '?';
      assert after[1..h] == q[1..] == query.value;
    } else {
      assert after == f;
    }
  }

  /** What comes after the `#` is the fragment. */
  lemma FragmentRead(query: Option<string>, fragment: Option<string>, h: nat)
    requires var q, f := QueryPart(query), FragmentPart(fragment);
      h == |q| && (q + f)[h..] == f
    ensures var after := QueryPart(query) + FragmentPart(fragment);
      (if h < |after| then Some(after[h + 1..]) else None) == fragment
  {
    var f := FragmentPart(fragment);
    var after := QueryPart(query) + f;
    if fragment.Some? {
      assert after[h + 1..] == f[1..] == fragment.value;
    }
  }
}
