/** The parts of the Fetch API's `Request`, `Response` and `Headers` that the worker
    touches. Header names are kept in lower case, the form `headers.entries()` yields;
    bodies are opaque byte strings. */
module Http {
  import opened Wrappers

  type HeaderMap = map<string, string>

  /** A request as the worker sees it: method, absolute URL and headers. */
  datatype Request = Request(httpMethod: string, url: string, headers: HeaderMap)

  /** A response: status, body (`None` for a `null` body) and headers. */
  datatype Response = Response(status: int, body: Option<seq<bv8>>, headers: HeaderMap)

  /** `headers.get(name)`: the value, or `null` when the header is absent. */
  function Lookup(h: HeaderMap, name: string): (r: Option<string>)
    ensures r.Some? <==> name in h
    ensures r.Some? ==> r.value == h[name]
  {
    if name in h then Some(h[name]) else None
  }

  /** The headers whose names belong to `allowed`, with their values. */
  function Whitelisted(h: HeaderMap, allowed: set<string>): (r: HeaderMap)
    ensures r.Keys == h.Keys * allowed
    ensures forall name :: name in r ==> r[name] == h[name]
  {
    map name | name in h.Keys * allowed :: h[name]
  }

  /** Filtering no headers leaves none. */
  lemma WhitelistedEmpty(allowed: set<string>)
    ensures Whitelisted(map[], allowed) == map[]
  {
    assert Whitelisted(map[], allowed).Keys == {};
  }

  /** Filtering twice with the same list is filtering once. */
  lemma WhitelistedIdempotent(h: HeaderMap, allowed: set<string>)
    ensures Whitelisted(Whitelisted(h, allowed), allowed) == Whitelisted(h, allowed)
  {
  }

  /** A mutable `Headers` object. */
  class Headers {
    var entries: HeaderMap

    /** `new Headers(init)`. */
    constructor(init: HeaderMap)
      ensures entries == init
    {
      entries := init;
    }

    /** `headers.get(name)`. */
    function Get(name: string): (r: Option<string>)
      reads this
      ensures r == Lookup(entries, name)
    {
      if name in entries then Some(entries[name]) else None
    }

    /** `headers.set(name, value)`: adds the header or replaces its value. */
    method Set(name: string, value: string)
      modifies this
      ensures entries == old(entries)[name := value]
    {
      entries := entries[name := value];
    }

    /** `headers.delete(name)`. */
    method Delete(name: string)
      modifies this
      ensures entries == old(entries) - {name}
    {
      entries := entries - {name};
    }
  }

  /** The loop both whitelist filters run: take a snapshot of the header names, then
      delete each name that is not allowed. */
  method DeleteUnlisted(headers: Headers, allowed: set<string>)
    modifies headers
    ensures headers.entries == Whitelisted(old(headers.entries), allowed)
  {
    ghost var start := headers.entries;
    var keys := headers.entries.Keys;
    while keys != {}
      invariant keys <= start.Keys
      invariant headers.entries.Keys == start.Keys * (keys + allowed)
      invariant forall name :: name in headers.entries ==> headers.entries[name] == start[name]
      decreases keys
    {
      var key :| key in keys;
      if key !in allowed {
        headers.Delete(key);
      }
      keys := keys - {key};
    }
    assert headers.entries.Keys == start.Keys * allowed;
    assert headers.entries == Whitelisted(start, allowed);
  }

  /** The entries of `m` whose names are in `names`. */
  function Restrict(m: HeaderMap, names: set<string>): (r: HeaderMap)
    ensures r.Keys == m.Keys * names
  {
    map name | name in m.Keys * names :: m[name]
  }

  lemma RestrictStep(start: HeaderMap, extra: HeaderMap, done: set<string>, key: string)
    requires key in extra
    ensures (start + Restrict(extra, done))[key := extra[key]] == start + Restrict(extra, done + {key})
  {
    var a := (start + Restrict(extra, done))[key := extra[key]];
    var b := start + Restrict(extra, done + {key});
    assert a.Keys == b.Keys;
    forall name | name in a ensures a[name] == b[name] {
    }
  }

  /** A loop that calls `headers.set(name, extra[name])` for every name of `extra`. */
  method SetEach(headers: Headers, extra: HeaderMap)
    modifies headers
    ensures headers.entries == old(headers.entries) + extra
  {
    ghost var start := headers.entries;
    var keys := extra.Keys;
    ghost var done: set<string> := {};
    while keys != {}
      invariant keys == extra.Keys - done
      invariant headers.entries == start + Restrict(extra, done)
      decreases keys
    {
      var key :| key in keys;
      RestrictStep(start, extra, done, key);
      headers.Set(key, extra[key]);
      keys, done := keys - {key}, done + {key};
    }
    assert Restrict(extra, done) == extra;
  }
}
