/** The name-value list behind `url.searchParams` (WHATWG URL Standard, section 6.2,
    interface URLSearchParams): `has`, `set` and the stable `sort`. Names and values are
    kept in the textual form they have in the query; form decoding is not modelled. */
module SearchParams {
  import opened Text

  datatype Param = Param(name: string, value: string)

  /** `searchParams.has(name)`. */
  predicate Has(ps: seq<Param>, name: string) {
    exists k :: 0 <= k < |ps| && ps[k].name == name
  }

  /** The pairs called `name`, in list order. */
  function Named(ps: seq<Param>, name: string): (r: seq<Param>)
    ensures |r| <= |ps|
    ensures forall k :: 0 <= k < |r| ==> r[k].name == name
  {
    if ps == [] then []
    else (if ps[0].name == name then [ps[0]] else []) + Named(ps[1..], name)
  }

  lemma {:induction false} NamedAppend(a: seq<Param>, b: seq<Param>, name: string)
    ensures Named(a + b, name) == Named(a, name) + Named(b, name)
    decreases |a|
  {
    if a == [] {
      assert a + b == b;
    } else {
      assert (a + b)[1..] == a[1..] + b;
      NamedAppend(a[1..], b, name);
    }
  }

  /** The first pair is among the pairs of its own name. */
  lemma NamedHead(ps: seq<Param>)
    requires ps != []
    ensures Named(ps, ps[0].name) != [] && Named(ps, ps[0].name)[0] == ps[0]
  {
  }

  /** Some pair is called `name` exactly when the pairs called `name` are not none. */
  lemma {:induction false} NamedEmptyIffAbsent(ps: seq<Param>, name: string)
    ensures Named(ps, name) == [] <==> !Has(ps, name)
    decreases |ps|
  {
    if ps != [] {
      NamedEmptyIffAbsent(ps[1..], name);
      if Has(ps[1..], name) {
        var k :| 0 <= k < |ps[1..]| && ps[1..][k].name == name;
        assert ps[k + 1].name == name;
      }
      if Has(ps, name) && ps[0].name != name {
        var k :| 0 <= k < |ps| && ps[k].name == name;
        assert ps[1..][k - 1].name == name;
      }
    }
  }

  // ---------------------------------------------------------------------------
  // searchParams.set(name, value)

  /** All pairs except those called `name`. */
  function Without(ps: seq<Param>, name: string): (r: seq<Param>)
    ensures !Has(r, name)
    ensures forall n :: n != name ==> Named(r, n) == Named(ps, n)
  {
    if ps == [] then []
    else if ps[0].name == name then Without(ps[1..], name)
    else [ps[0]] + Without(ps[1..], name)
  }

  /** The first pair called `name` gets `value`, the later ones are removed. */
  function ReplaceFirst(ps: seq<Param>, name: string, value: string): (r: seq<Param>)
    requires Has(ps, name)
    ensures Named(r, name) == [Param(name, value)]
    ensures forall n :: n != name ==> Named(r, n) == Named(ps, n)
  {
    if ps[0].name == name then
      var rest := Without(ps[1..], name);
      NamedEmptyIffAbsent(rest, name);
      [Param(name, value)] + rest
    else
      assert Has(ps[1..], name) by {
        var k :| 0 <= k < |ps| && ps[k].name == name;
        assert ps[1..][k - 1].name == name;
      }
      [ps[0]] + ReplaceFirst(ps[1..], name, value)
  }

  /** `searchParams.set(name, value)`: when pairs called `name` exist, the first one takes
      `value` and the others are removed; otherwise the pair is appended. */
  function Set(ps: seq<Param>, name: string, value: string): (r: seq<Param>)
    ensures Named(r, name) == [Param(name, value)]
    ensures forall n :: n != name ==> Named(r, n) == Named(ps, n)
    ensures !Has(ps, name) ==> r == ps + [Param(name, value)]
  {
    if Has(ps, name) then ReplaceFirst(ps, name, value)
    else
      NamedEmptyIffAbsent(ps, name);
      forall n ensures Named(ps + [Param(name, value)], n)
                       == Named(ps, n) + Named([Param(name, value)], n) {
        NamedAppend(ps, [Param(name, value)], n);
      }
      ps + [Param(name, value)]
  }

  /** After `set`, the name is present. */
  lemma SetHas(ps: seq<Param>, name: string, value: string, other: string)
    ensures Has(Set(ps, name, value), name)
    ensures other != name ==> (Has(Set(ps, name, value), other) <==> Has(ps, other))
  {
    NamedEmptyIffAbsent(Set(ps, name, value), name);
    NamedEmptyIffAbsent(Set(ps, name, value), other);
    NamedEmptyIffAbsent(ps, other);
  }

  // ---------------------------------------------------------------------------
  // searchParams.sort(): a stable sort by name

  predicate SortedByName(ps: seq<Param>) {
    forall i, j :: 0 <= i < j < |ps| ==> StrLe(ps[i].name, ps[j].name)
  }

  /** Puts `p` in front of the first pair whose name is not below `p`'s. */
  function Insert(p: Param, ps: seq<Param>): seq<Param> {
    if ps == [] || StrLe(p.name, ps[0].name) then [p] + ps
    else [ps[0]] + Insert(p, ps[1..])
  }

  /** Insertion sort from the back: each pair goes before the equally named pairs that
      follow it in the input, which keeps the sort stable. */
  function Sort(ps: seq<Param>): seq<Param> {
    if ps == [] then [] else Insert(ps[0], Sort(ps[1..]))
  }

  lemma {:induction false} InsertKeepsPairs(p: Param, ps: seq<Param>)
    ensures multiset(Insert(p, ps)) == multiset(ps) + multiset{p}
    decreases |ps|
  {
    if ps != [] && !StrLe(p.name, ps[0].name) {
      InsertKeepsPairs(p, ps[1..]);
      assert ps == [ps[0]] + ps[1..];
    }
  }

  lemma {:induction false} InsertKeepsNamed(p: Param, ps: seq<Param>)
    ensures forall n :: Named(Insert(p, ps), n) == Named([p], n) + Named(ps, n)
    decreases |ps|
  {
    if ps == [] || StrLe(p.name, ps[0].name) {
      forall n ensures Named([p] + ps, n) == Named([p], n) + Named(ps, n) {
        NamedAppend([p], ps, n);
      }
    } else {
      InsertKeepsNamed(p, ps[1..]);
      StrLeReflexive(p.name);
      assert p.name != ps[0].name;
      var rest := Insert(p, ps[1..]);
      assert ps == [ps[0]] + ps[1..];
      forall n ensures Named([ps[0]] + rest, n) == Named([p], n) + Named(ps, n) {
        NamedAppend([ps[0]], rest, n);
        NamedAppend([ps[0]], ps[1..], n);
      }
    }
  }

  lemma {:induction false} InsertSorted(p: Param, ps: seq<Param>)
    requires SortedByName(ps)
    ensures SortedByName(Insert(p, ps))
    decreases |ps|
  {
    if ps == [] || StrLe(p.name, ps[0].name) {
      forall i, j | 0 <= i < j < |[p] + ps|
        ensures StrLe(([p] + ps)[i].name, ([p] + ps)[j].name)
      {
        if i == 0 && j > 1 { StrLeTransitive(p.name, ps[0].name, ps[j - 1].name); }
      }
    } else {
      StrLeTotal(p.name, ps[0].name);
      var rest := Insert(p, ps[1..]);
      InsertSorted(p, ps[1..]);
      InsertKeepsPairs(p, ps[1..]);
      var r := [ps[0]] + rest;
      forall j | 0 < j < |r| ensures StrLe(r[0].name, r[j].name) {
        assert r[j] in multiset(rest);
        if r[j] != p {
          assert r[j] in multiset(ps[1..]);
          var k :| 0 <= k < |ps[1..]| && ps[1..][k] == r[j];
          assert ps[k + 1] == r[j];
        }
      }
      assert SortedByName(r);
    }
  }

  /** The sort puts names in non-decreasing order, keeps the input's pairs (as a multiset),
      and keeps equally named pairs in their input order. */
  lemma {:induction false} SortIsStableSort(ps: seq<Param>)
    ensures SortedByName(Sort(ps))
    ensures multiset(Sort(ps)) == multiset(ps)
    ensures forall n :: Named(Sort(ps), n) == Named(ps, n)
    decreases |ps|
  {
    if ps != [] {
      SortIsStableSort(ps[1..]);
      InsertSorted(ps[0], Sort(ps[1..]));
      InsertKeepsPairs(ps[0], Sort(ps[1..]));
      InsertKeepsNamed(ps[0], Sort(ps[1..]));
      assert ps == [ps[0]] + ps[1..];
      forall n ensures Named(Sort(ps), n) == Named(ps, n) {
        NamedAppend([ps[0]], ps[1..], n);
      }
    }
  }

  /** A stable sort has only one possible result: two lists sorted by name whose pairs
      of each name come in the same order are equal. */
  lemma {:induction false} StableSortUnique(a: seq<Param>, b: seq<Param>)
    requires SortedByName(a) && SortedByName(b)
    requires forall n :: Named(a, n) == Named(b, n)
    ensures a == b
    decreases |a| + |b|
  {
    if a == [] || b == [] {
      if a != [] {
        NamedHead(a);
        assert false;
      } else if b != [] {
        NamedHead(b);
        assert false;
      }
    } else {
      var m, m' := a[0].name, b[0].name;
      assert Named(b, m) != [];
      NamedEmptyIffAbsent(b, m);
      var k :| 0 <= k < |b| && b[k].name == m;
      StrLeReflexive(m);
      assert StrLe(m', m);
      assert Named(a, m') != [];
      NamedEmptyIffAbsent(a, m');
      var k' :| 0 <= k' < |a| && a[k'].name == m';
      assert StrLe(m, m');
      StrLeAntisymmetric(m, m');
      assert Named(a, m)[0] == a[0] && Named(b, m)[0] == b[0];
      forall n ensures Named(a[1..], n) == Named(b[1..], n) {
        var x: seq<Param> := if n == m then [a[0]] else [];
        assert Named(a, n) == x + Named(a[1..], n);
        assert Named(b, n) == x + Named(b[1..], n);
        assert Named(a[1..], n) == Named(a, n)[|x|..];
        assert Named(b[1..], n) == Named(b, n)[|x|..];
      }
      StableSortUnique(a[1..], b[1..]);
      assert a == [a[0]] + a[1..] && b == [b[0]] + b[1..];
    }
  }

  /** Sorting two lists that agree on the order of each name's pairs gives one result, so
      reordering differently named parameters does not change the sorted list. */
  lemma SortDependsOnlyOnNamed(a: seq<Param>, b: seq<Param>)
    requires forall n :: Named(a, n) == Named(b, n)
    ensures Sort(a) == Sort(b)
  {
    SortIsStableSort(a);
    SortIsStableSort(b);
    StableSortUnique(Sort(a), Sort(b));
  }
}
