/** `normalizeUrl` (src/normalize-url.js): a fixed sequence of edits on a parsed URL,
    followed by two edits of the serialized string. */
module UrlNormalizer {
  import opened Wrappers
  import opened Text
  import opened SearchParams
  import opened Url

  // ---------------------------------------------------------------------------
  // `pathname.replace(/(?<!https?:)\/{2,}/g, '/')`

  /** The look-behind of the pattern: the text before the run ends with `http:` or
      `https:`. */
  predicate EndsWithScheme(s: string) {
    EndsWith(s, "http:") || EndsWith(s, "https:")
  }

  /** Number of leading `/` characters. */
  function SlashRun(s: string): (n: nat)
    ensures n <= |s|
    ensures forall k :: 0 <= k < n ==> s[k] == '/'
    ensures n < |s| ==> s[n] != '/'
    ensures s[n..] == [] || s[n..][0] != '/'
  {
    if s != [] && s[0] == '/' then 1 + SlashRun(s[1..]) else 0
  }

  /** The global replacement scanning `rest`, where `ctx` is the part of the input already
      scanned (the look-behind reads the input, not the output). At each position either
      the maximal run of two or more slashes there is replaced by one slash, or one
      character is copied and the scan moves on by one. */
  function CollapseFrom(ctx: string, rest: string): string
    decreases |rest|
  {
    if rest == [] then []
    else if |rest| >= 2 && rest[0] == '/' && rest[1] == '/' && !EndsWithScheme(ctx) then
      var n := SlashRun(rest);
      "/" + CollapseFrom(ctx + rest[..n], rest[n..])
    else [rest[0]] + CollapseFrom(ctx + [rest[0]], rest[1..])
  }

  function CollapseSlashes(path: string): string {
    CollapseFrom([], path)
  }

  /** No two adjacent slashes, except where the first of them follows `http:` or
      `https:` (stated from the end, the way the output grows). */
  predicate NoStraySlashes(t: string)
    decreases |t|
  {
    |t| < 2
    || (NoStraySlashes(t[..|t| - 1])
        && (t[|t| - 2] == '/' && t[|t| - 1] == '/' ==> EndsWithScheme(t[..|t| - 2])))
  }

  lemma {:induction false} NoStrayPrefix(t: string, j: nat)
    requires NoStraySlashes(t) && j <= |t|
    ensures NoStraySlashes(t[..j])
    decreases |t|
  {
    if j < |t| {
      assert t[..|t| - 1][..j] == t[..j];
      NoStrayPrefix(t[..|t| - 1], j);
    } else {
      assert t[..j] == t;
    }
  }

  /** The same property at one position. */
  lemma NoStrayAt(t: string, k: nat)
    requires NoStraySlashes(t) && k + 1 < |t| && t[k] == '/' && t[k + 1] == '/'
    ensures EndsWithScheme(t[..k])
  {
    NoStrayPrefix(t, k + 2);
    assert t[..k + 2][..k] == t[..k];
  }

  /** The text after the last `/`. */
  function LastSegment(s: string): string {
    if s == [] then [] else if s[|s| - 1] == '/' then [] else LastSegment(s[..|s| - 1]) + [s[|s| - 1]]
  }

  /** The last segment is the suffix after the last slash. */
  lemma {:induction false} LastSegmentIsSuffix(s: string)
    ensures var r := LastSegment(s);
      |r| <= |s| && r == s[|s| - |r|..] && '/' !in r
      && (|r| < |s| ==> s[|s| - |r| - 1] == '/')
    decreases |s|
  {
    if s != [] && s[|s| - 1] != '/' {
      LastSegmentIsSuffix(s[..|s| - 1]);
    }
  }

  /** A suffix without slashes can be read off the last segment alone. */
  lemma EndsWithLastSegment(s: string, w: string)
    requires '/' !in w
    ensures EndsWith(s, w) <==> EndsWith(LastSegment(s), w)
  {
    var l := LastSegment(s);
    LastSegmentIsSuffix(s);
    if |w| <= |l| {
      assert s[|s| - |w|..] == l[|l| - |w|..];
    }
  }

  lemma SchemeLastSegment(a: string, b: string)
    requires LastSegment(a) == LastSegment(b)
    ensures EndsWithScheme(a) <==> EndsWithScheme(b)
  {
    EndsWithLastSegment(a, "http:");
    EndsWithLastSegment(b, "http:");
    EndsWithLastSegment(a, "https:");
    EndsWithLastSegment(b, "https:");
  }

  lemma NoStrayAppend(t: string, c: char)
    requires NoStraySlashes(t)
    requires c == '/' && t != [] && t[|t| - 1] == '/' ==> EndsWithScheme(t[..|t| - 1])
    ensures NoStraySlashes(t + [c])
  {
    var t' := t + [c];
    assert t'[..|t'| - 1] == t;
    if |t'| >= 2 { assert t'[..|t'| - 2] == t[..|t| - 1]; }
  }

  lemma LastSegmentAppend(s: string, c: char)
    ensures LastSegment(s + [c]) == if c == '/' then [] else LastSegment(s) + [c]
  {
    assert (s + [c])[..|s|] == s;
  }

  lemma LastSegmentSlashes(s: string, run: string)
    requires run != [] && forall k :: 0 <= k < |run| ==> run[k] == '/'
    ensures LastSegment(s + run) == []
  {
  }

  /** The invariant of the scan below: `out`, the output so far, ends in the same segment
      as `ctx`, the input scanned so far; it has no stray double slash; and if it ends in
      a slash that the next input slash would double, that slash follows a scheme. */
  predicate ScanInvariant(ctx: string, out: string, rest: string) {
    LastSegment(ctx) == LastSegment(out)
    && NoStraySlashes(out)
    && (out != [] && out[|out| - 1] == '/' && rest != [] && rest[0] == '/'
        ==> EndsWithScheme(out[..|out| - 1]))
  }

  lemma CollapseStepRun(ctx: string, out: string, rest: string)
    requires ScanInvariant(ctx, out, rest)
    requires |rest| >= 2 && rest[0] == '/' && rest[1] == '/'
    ensures ScanInvariant(ctx + rest[..SlashRun(rest)], out + "/", rest[SlashRun(rest)..])
  {
    var n := SlashRun(rest);
    var ctx', out', rest' := ctx + rest[..n], out + "/", rest[n..];
    assert rest' == [] || rest'[0] != '/';
    LastSegmentSlashes(ctx, rest[..n]);
    LastSegmentAppend(out, '/');
    assert LastSegment(ctx') == LastSegment(out');
    NoStrayAppend(out, '/');
    assert NoStraySlashes(out');
  }

  lemma CollapseStepCopy(ctx: string, out: string, rest: string)
    requires ScanInvariant(ctx, out, rest)
    requires rest != []
    requires |rest| >= 2 && rest[0] == '/' && rest[1] == '/' ==> EndsWithScheme(ctx)
    ensures ScanInvariant(ctx + [rest[0]], out + [rest[0]], rest[1..])
  {
    var c := rest[0];
    SchemeLastSegment(ctx, out);
    NoStrayAppend(out, c);
    LastSegmentAppend(out, c);
    LastSegmentAppend(ctx, c);
  }

  /** A step of the scan that replaces a run of slashes. */
  lemma CollapseRunOutput(ctx: string, rest: string)
    requires |rest| >= 2 && rest[0] == '/' && rest[1] == '/' && !EndsWithScheme(ctx)
    ensures CollapseFrom(ctx, rest)
            == "/" + CollapseFrom(ctx + rest[..SlashRun(rest)], rest[SlashRun(rest)..])
  {
  }

  /** A step of the scan that copies one character. */
  lemma CollapseCopyOutput(ctx: string, rest: string)
    requires rest != []
    requires |rest| >= 2 && rest[0] == '/' && rest[1] == '/' ==> EndsWithScheme(ctx)
    ensures CollapseFrom(ctx, rest) == [rest[0]] + CollapseFrom(ctx + [rest[0]], rest[1..])
  {
  }

  lemma AppendAssoc(a: string, b: string, c: string)
    ensures a + (b + c) == (a + b) + c
  {
  }

  /** The scan leaves no stray double slash. */
  lemma {:induction false} CollapseLeavesNoStray(ctx: string, out: string, rest: string)
    requires ScanInvariant(ctx, out, rest)
    ensures NoStraySlashes(out + CollapseFrom(ctx, rest))
    decreases |rest|
  {
    if rest == [] {
      assert out + CollapseFrom(ctx, rest) == out;
    } else if |rest| >= 2 && rest[0] == '/' && rest[1] == '/' && !EndsWithScheme(ctx) {
      var n := SlashRun(rest);
      CollapseRunOutput(ctx, rest);
      AppendAssoc(out, "/", CollapseFrom(ctx + rest[..n], rest[n..]));
      CollapseStepRun(ctx, out, rest);
      CollapseLeavesNoStray(ctx + rest[..n], out + "/", rest[n..]);
    } else {
      var c := rest[0];
      CollapseCopyOutput(ctx, rest);
      AppendAssoc(out, [c], CollapseFrom(ctx + [c], rest[1..]));
      CollapseStepCopy(ctx, out, rest);
      CollapseLeavesNoStray(ctx + [c], out + [c], rest[1..]);
    }
  }

  /** After the replacement, every double slash left in the path follows `http:` or
      `https:`. */
  lemma CollapseSlashesNoStray(path: string)
    ensures NoStraySlashes(CollapseSlashes(path))
  {
    CollapseLeavesNoStray([], [], path);
    assert [] + CollapseSlashes(path) == CollapseSlashes(path);
  }

  /** A path without stray double slashes is left as it is. */
  lemma {:induction false} CollapseFixedPoint(ctx: string, rest: string)
    requires NoStraySlashes(ctx + rest)
    ensures CollapseFrom(ctx, rest) == rest
    decreases |rest|
  {
    if rest != [] {
      if |rest| >= 2 && rest[0] == '/' && rest[1] == '/' {
        NoStrayAt(ctx + rest, |ctx|);
        assert (ctx + rest)[..|ctx|] == ctx;
      }
      assert (ctx + [rest[0]]) + rest[1..] == ctx + rest;
      CollapseFixedPoint(ctx + [rest[0]], rest[1..]);
    }
  }

  /** The replacement changes a path exactly when the path has a stray double slash. */
  lemma CollapseUnchangedIff(path: string)
    ensures CollapseSlashes(path) == path <==> NoStraySlashes(path)
  {
    if NoStraySlashes(path) {
      assert [] + path == path;
      CollapseFixedPoint([], path);
    } else {
      CollapseSlashesNoStray(path);
    }
  }

  /** Replacing twice gives what replacing once gives. */
  lemma CollapseIdempotent(path: string)
    ensures CollapseSlashes(CollapseSlashes(path)) == CollapseSlashes(path)
  {
    CollapseSlashesNoStray(path);
    CollapseUnchangedIff(CollapseSlashes(path));
  }

  /** `s` with its slashes removed. */
  function Unslashed(s: string): (r: string)
    ensures forall c :: c != '/' ==> (c in r <==> c in s)
  {
    if s == [] then [] else (if s[0] == '/' then [] else [s[0]]) + Unslashed(s[1..])
  }

  lemma {:induction false} UnslashedAppend(a: string, b: string)
    ensures Unslashed(a + b) == Unslashed(a) + Unslashed(b)
    decreases |a|
  {
    if a == [] {
      assert a + b == b;
    } else {
      assert (a + b)[1..] == a[1..] + b;
      UnslashedAppend(a[1..], b);
    }
  }

  lemma {:induction false} UnslashedRun(s: string, n: nat)
    requires n <= |s| && forall k :: 0 <= k < n ==> s[k] == '/'
    ensures Unslashed(s[n..]) == Unslashed(s)
    decreases n
  {
    if n > 0 {
      UnslashedRun(s[1..], n - 1);
      assert s[1..][n - 1..] == s[n..];
    }
  }

  /** The replacement only removes slashes: every other character stays, in order. */
  lemma {:induction false} CollapseKeepsOtherChars(ctx: string, rest: string)
    ensures Unslashed(CollapseFrom(ctx, rest)) == Unslashed(rest)
    decreases |rest|
  {
    if rest == [] {
    } else if |rest| >= 2 && rest[0] == '/' && rest[1] == '/' && !EndsWithScheme(ctx) {
      var n := SlashRun(rest);
      var tail := CollapseFrom(ctx + rest[..n], rest[n..]);
      assert CollapseFrom(ctx, rest) == "/" + tail;
      UnslashedAppend("/", tail);
      CollapseKeepsOtherChars(ctx + rest[..n], rest[n..]);
      UnslashedRun(rest, n);
    } else {
      var tail := CollapseFrom(ctx + [rest[0]], rest[1..]);
      assert CollapseFrom(ctx, rest) == [rest[0]] + tail;
      UnslashedAppend([rest[0]], tail);
      CollapseKeepsOtherChars(ctx + [rest[0]], rest[1..]);
      UnslashedRun(rest, if rest[0] == '/' then 1 else 0);
      assert rest == [rest[0]] + rest[1..];
      UnslashedAppend([rest[0]], rest[1..]);
    }
  }

  /** A path that starts with a slash still does after the replacement. */
  lemma CollapseKeepsLeadingSlash(path: string)
    ensures StartsWith(path, "/") ==> StartsWith(CollapseSlashes(path), "/")
  {
  }

  /** `s` with every run of slashes shortened to one slash. */
  function Squeeze(s: string): string {
    if s == [] then []
    else if |s| >= 2 && s[0] == '/' && s[1] == '/' then Squeeze(s[1..])
    else [s[0]] + Squeeze(s[1..])
  }

  /** The scan's output starts with the input's first character. */
  lemma CollapseHead(ctx: string, rest: string)
    ensures CollapseFrom(ctx, rest) == [] <==> rest == []
    ensures rest != [] ==> CollapseFrom(ctx, rest)[0] == rest[0]
  {
  }

  /** Squeezing a run of slashes and what follows it. */
  lemma {:induction false} SqueezeRun(s: string, n: nat)
    requires 0 < n <= |s| && forall k :: 0 <= k < n ==> s[k] == '/'
    requires n == |s| || s[n] != '/'
    ensures Squeeze(s) == "/" + Squeeze(s[n..])
    decreases n
  {
    if n > 1 {
      SqueezeRun(s[1..], n - 1);
      assert s[1..][n - 1..] == s[n..];
    }
  }

  /** A run of slashes is never removed altogether: shortening every run to one slash
      gives the same text before and after the scan. */
  lemma {:induction false} CollapseKeepsRuns(ctx: string, rest: string)
    ensures Squeeze(CollapseFrom(ctx, rest)) == Squeeze(rest)
    decreases |rest|
  {
    if rest == [] {
    } else if |rest| >= 2 && rest[0] == '/' && rest[1] == '/' && !EndsWithScheme(ctx) {
      var n := SlashRun(rest);
      var tail := CollapseFrom(ctx + rest[..n], rest[n..]);
      assert CollapseFrom(ctx, rest) == "/" + tail;
      CollapseHead(ctx + rest[..n], rest[n..]);
      CollapseKeepsRuns(ctx + rest[..n], rest[n..]);
      SqueezeRun(rest, n);
      if tail == [] {
        assert Squeeze("/" + tail) == "/";
      } else {
        assert ("/" + tail)[1..] == tail;
      }
    } else {
      var tail := CollapseFrom(ctx + [rest[0]], rest[1..]);
      assert CollapseFrom(ctx, rest) == [rest[0]] + tail;
      CollapseHead(ctx + [rest[0]], rest[1..]);
      CollapseKeepsRuns(ctx + [rest[0]], rest[1..]);
      assert ([rest[0]] + tail)[1..] == tail;
    }
  }

  /** The replacement removes no run of slashes: shortening every run to one slash gives
      the same text before and after it. */
  lemma CollapseSlashesKeepsRuns(path: string)
    ensures Squeeze(CollapseSlashes(path)) == Squeeze(path)
  {
    CollapseKeepsRuns([], path);
  }

  /** The scan of a text that ends in a character other than `/` followed by more text
      is the scan of the first part followed by the scan of the rest, in the first part's
      context. */
  lemma {:induction false} CollapseSplit(ctx: string, s: string, t: string)
    requires s == [] || s[|s| - 1] != '/'
    ensures CollapseFrom(ctx, s + t) == CollapseFrom(ctx, s) + CollapseFrom(ctx + s, t)
    decreases |s|, 1
  {
    if s == [] {
      assert s + t == t && ctx + s == ctx;
    } else if |s + t| >= 2 && (s + t)[0] == '/' && (s + t)[1] == '/' && !EndsWithScheme(ctx) {
      CollapseSplitRun(ctx, s, t);
    } else {
      CollapseSplitCopy(ctx, s, t);
    }
  }

  lemma {:induction false} CollapseSplitRun(ctx: string, s: string, t: string)
    requires s != [] && s[|s| - 1] != '/'
    requires |s + t| >= 2 && (s + t)[0] == '/' && (s + t)[1] == '/' && !EndsWithScheme(ctx)
    ensures CollapseFrom(ctx, s + t) == CollapseFrom(ctx, s) + CollapseFrom(ctx + s, t)
    decreases |s|, 0
  {
    var n := SplitRunStep(ctx, s, t);
    var c, s' := ctx + s[..n], s[n..];
    assert s'[|s'| - 1] == s[|s| - 1];
    CollapseSplit(c, s', t);
    assert c + s' == ctx + s;
    AppendAssoc("/", CollapseFrom(c, s'), CollapseFrom(ctx + s, t));
  }

  lemma {:induction false} CollapseSplitCopy(ctx: string, s: string, t: string)
    requires s != [] && s[|s| - 1] != '/'
    requires !(|s + t| >= 2 && (s + t)[0] == '/' && (s + t)[1] == '/' && !EndsWithScheme(ctx))
    ensures CollapseFrom(ctx, s + t) == CollapseFrom(ctx, s) + CollapseFrom(ctx + s, t)
    decreases |s|, 0
  {
    SplitCopyStep(ctx, s, t);
    var c, s' := ctx + [s[0]], s[1..];
    assert s' == [] || s'[|s'| - 1] == s[|s| - 1];
    CollapseSplit(c, s', t);
    assert c + s' == ctx + s;
    AppendAssoc([s[0]], CollapseFrom(c, s'), CollapseFrom(ctx + s, t));
  }

  /** A replaced run lies inside the first part. */
  lemma SplitRunStep(ctx: string, s: string, t: string) returns (n: nat)
    requires s != [] && s[|s| - 1] != '/'
    requires |s + t| >= 2 && (s + t)[0] == '/' && (s + t)[1] == '/' && !EndsWithScheme(ctx)
    ensures 0 < n < |s|
    ensures CollapseFrom(ctx, s + t) == "/" + CollapseFrom(ctx + s[..n], s[n..] + t)
    ensures CollapseFrom(ctx, s) == "/" + CollapseFrom(ctx + s[..n], s[n..])
  {
    n := SlashRun(s + t);
    SlashRunPrefix(s, t);
    SplitRunWhole(ctx, s, t, n);
    SplitRunFirst(ctx, s, t, n);
  }

  lemma SplitRunWhole(ctx: string, s: string, t: string, n: nat)
    requires |s + t| >= 2 && (s + t)[0] == '/' && (s + t)[1] == '/' && !EndsWithScheme(ctx)
    requires n == SlashRun(s + t) && n < |s|
    ensures CollapseFrom(ctx, s + t) == "/" + CollapseFrom(ctx + s[..n], s[n..] + t)
  {
    var st := s + t;
    CollapseRunOutput(ctx, st);
    assert st[..n] == s[..n] && st[n..] == s[n..] + t;
  }

  lemma SplitRunFirst(ctx: string, s: string, t: string, n: nat)
    requires |s + t| >= 2 && (s + t)[0] == '/' && (s + t)[1] == '/' && !EndsWithScheme(ctx)
    requires n == SlashRun(s) && n < |s|
    ensures CollapseFrom(ctx, s) == "/" + CollapseFrom(ctx + s[..n], s[n..])
  {
    var st := s + t;
    assert s[0] == st[0];
    assert |s| >= 2 && s[1] == st[1];
    CollapseRunOutput(ctx, s);
  }

  /** A copied character belongs to the first part. */
  lemma SplitCopyStep(ctx: string, s: string, t: string)
    requires s != []
    requires !(|s + t| >= 2 && (s + t)[0] == '/' && (s + t)[1] == '/' && !EndsWithScheme(ctx))
    ensures CollapseFrom(ctx, s + t) == [s[0]] + CollapseFrom(ctx + [s[0]], s[1..] + t)
    ensures CollapseFrom(ctx, s) == [s[0]] + CollapseFrom(ctx + [s[0]], s[1..])
  {
    SplitCopyWhole(ctx, s, t);
    SplitCopyFirst(ctx, s, t);
  }

  lemma SplitCopyWhole(ctx: string, s: string, t: string)
    requires s != []
    requires !(|s + t| >= 2 && (s + t)[0] == '/' && (s + t)[1] == '/' && !EndsWithScheme(ctx))
    ensures CollapseFrom(ctx, s + t) == [s[0]] + CollapseFrom(ctx + [s[0]], s[1..] + t)
  {
    var st := s + t;
    CollapseCopyOutput(ctx, st);
    assert st[0] == s[0] && st[1..] == s[1..] + t;
  }

  lemma SplitCopyFirst(ctx: string, s: string, t: string)
    requires s != []
    requires !(|s + t| >= 2 && (s + t)[0] == '/' && (s + t)[1] == '/' && !EndsWithScheme(ctx))
    ensures CollapseFrom(ctx, s) == [s[0]] + CollapseFrom(ctx + [s[0]], s[1..])
  {
    var st := s + t;
    assert |s| >= 2 ==> s[0] == st[0] && s[1] == st[1];
    CollapseCopyOutput(ctx, s);
  }

  lemma {:induction false} SlashRunPrefix(s: string, t: string)
    requires s != [] && s[|s| - 1] != '/'
    ensures SlashRun(s + t) == SlashRun(s) < |s|
    decreases |s|
  {
    if s[0] == '/' {
      assert (s + t)[1..] == s[1..] + t;
      SlashRunPrefix(s[1..], t);
    }
  }

  /** A `//` right after `http:` or `https:` is kept: the output goes on with `//`
      where the input does. */
  lemma SchemeSlashesKept(x: string, y: string)
    requires EndsWithScheme(x)
    ensures StartsWith(CollapseSlashes(x + "//" + y), CollapseSlashes(x) + "//")
  {
    var w := "//" + y;
    SchemeEndsInColon(x);
    assert x + "//" + y == x + w;
    CollapseSplit([], x, w);
    assert [] + x == x;
    var tail := CollapseFrom(x, w);
    TwoSlashesCopied(x, w);
    PrefixThenStartsWith(CollapseSlashes(x), tail);
  }

  lemma SchemeEndsInColon(x: string)
    requires EndsWithScheme(x)
    ensures x != [] && x[|x| - 1] == ':'
  {
    if EndsWith(x, "http:") {
      assert x[|x| - 1] == x[|x| - 5..][4];
    } else {
      assert x[|x| - 1] == x[|x| - 6..][5];
    }
  }

  /** After `http:` or `https:`, the scan copies the first slash, and the second one
      starts the rest of its output. */
  lemma TwoSlashesCopied(x: string, w: string)
    requires EndsWithScheme(x)
    requires |w| >= 2 && w[0] == '/' && w[1] == '/'
    ensures StartsWith(CollapseFrom(x, w), "//")
  {
    CollapseCopyOutput(x, w);
    CollapseHead(x + [w[0]], w[1..]);
    var r := CollapseFrom(x, w);
    assert r[0] == '/' && r[1] == '/';
    assert r[..2] == "//";
  }

  lemma PrefixThenStartsWith(a: string, b: string)
    requires StartsWith(b, "//")
    ensures StartsWith(a + b, a + "//")
  {
    assert (a + b)[..|a| + 2] == a + b[..2];
  }

  // ---------------------------------------------------------------------------
  // `urlString.replace(/https:%2F%2F/g, 'https%3A%2F%2F')`

  const SchemeWithEncodedSlashes := "https:%2F%2F"
  const FullyEncodedScheme := "https%3A%2F%2F"

  function EncodeNestedScheme(s: string): string {
    ReplaceAll(s, SchemeWithEncodedSlashes, FullyEncodedScheme)
  }

  lemma {:induction false} ContainsNeedsLength(s: string, pat: string)
    requires Contains(s, pat)
    ensures |pat| <= |s|
    decreases |s|
  {
    if !StartsWith(s, pat) {
      ContainsNeedsLength(s[1..], pat);
    }
  }

  /** As long as the output holds no `h`, it copies the input. */
  lemma {:induction false} EncodeCopiesUntilH(t: string, k: nat)
    requires k <= |EncodeNestedScheme(t)|
    requires forall i :: 0 <= i < k ==> EncodeNestedScheme(t)[i] != 'h'
    ensures k <= |t| && EncodeNestedScheme(t)[..k] == t[..k]
    decreases |t|
  {
    var pat, rep := SchemeWithEncodedSlashes, FullyEncodedScheme;
    if |t| < |pat| {
      assert EncodeNestedScheme(t) == t;
    } else if t[..|pat|] == pat {
      assert EncodeNestedScheme(t) == rep + EncodeNestedScheme(t[|pat|..]);
      assert EncodeNestedScheme(t)[0] == 'h';
    } else if k > 0 {
      var r, rest := EncodeNestedScheme(t), EncodeNestedScheme(t[1..]);
      assert r == [t[0]] + rest;
      assert forall i :: 0 <= i < k - 1 ==> rest[i] == r[i + 1];
      EncodeCopiesUntilH(t[1..], k - 1);
      assert r[..k] == [t[0]] + rest[..k - 1];
      assert t[..k] == [t[0]] + t[1..][..k - 1];
    }
  }

  /** Text without an `h` in front of text without the pattern has no pattern either. */
  lemma {:induction false} NoPatternAfterNoH(x: string, y: string)
    requires forall i :: 0 <= i < |x| ==> x[i] != 'h'
    requires !Contains(y, SchemeWithEncodedSlashes)
    ensures !Contains(x + y, SchemeWithEncodedSlashes)
    decreases |x|
  {
    if x == [] {
      assert x + y == y;
    } else {
      assert (x + y)[0] != SchemeWithEncodedSlashes[0];
      assert (x + y)[1..] == x[1..] + y;
      NoPatternAfterNoH(x[1..], y);
    }
  }

  lemma NoPatternAfterReplacement(rest: string)
    requires !Contains(rest, SchemeWithEncodedSlashes)
    ensures !Contains(FullyEncodedScheme + rest, SchemeWithEncodedSlashes)
  {
    var pat, rep := SchemeWithEncodedSlashes, FullyEncodedScheme;
    NoPatternAfterNoH(rep[1..], rest);
    assert (rep + rest)[1..] == rep[1..] + rest;
    assert (rep + rest)[5] != pat[5];
  }

  /** Only the first character of the pattern is an `h`. */
  lemma PatternHasOneH()
    ensures SchemeWithEncodedSlashes[0] == 'h'
    ensures forall i :: 1 <= i < |SchemeWithEncodedSlashes| ==> SchemeWithEncodedSlashes[i] != 'h'
  {
  }

  lemma NoPatternAfterCopy(s: string)
    requires |s| >= |SchemeWithEncodedSlashes|
    requires s[..|SchemeWithEncodedSlashes|] != SchemeWithEncodedSlashes
    requires !Contains(EncodeNestedScheme(s[1..]), SchemeWithEncodedSlashes)
    ensures !Contains([s[0]] + EncodeNestedScheme(s[1..]), SchemeWithEncodedSlashes)
  {
    var pat := SchemeWithEncodedSlashes;
    var m := |pat| - 1;
    var rest := EncodeNestedScheme(s[1..]);
    var x := [s[0]] + rest;
    assert x[1..] == rest;
    if StartsWith(x, pat) {
      PatternHasOneH();
      HeadMatchLeavesNoH(s[0], rest, pat);
      EncodeCopiesUntilH(s[1..], m);
      CopiedPrefixMatches(s, rest, pat);
    }
  }

  /** When `[c] + rest` starts with a pattern whose only `h` is its first character, the
      part of `rest` under the pattern has no `h`. */
  lemma HeadMatchLeavesNoH(c: char, rest: string, pat: string)
    requires pat != [] && forall i :: 1 <= i < |pat| ==> pat[i] != 'h'
    requires StartsWith([c] + rest, pat)
    ensures |pat| - 1 <= |rest|
    ensures forall i :: 0 <= i < |pat| - 1 ==> rest[i] != 'h'
  {
    var x := [c] + rest;
    forall i | 0 <= i < |pat| - 1 ensures rest[i] != 'h' {
      assert rest[i] == x[i + 1] == x[..|pat|][i + 1] == pat[i + 1];
    }
  }

  /** A copied first character followed by a copied prefix gives the input's prefix. */
  lemma CopiedPrefixMatches(s: string, rest: string, pat: string)
    requires pat != [] && |pat| <= |s| && |pat| - 1 <= |rest|
    requires StartsWith([s[0]] + rest, pat)
    requires rest[..|pat| - 1] == s[1..][..|pat| - 1]
    ensures s[..|pat|] == pat
  {
    var x := [s[0]] + rest;
    assert s[..|pat|] == [s[0]] + s[1..][..|pat| - 1];
    assert x[..|pat|] == [s[0]] + rest[..|pat| - 1];
  }

  /** No `https:%2F%2F` is left after the replacement. */
  lemma {:induction false} EncodeNestedSchemeLeavesNone(s: string)
    ensures !Contains(EncodeNestedScheme(s), SchemeWithEncodedSlashes)
    decreases |s|
  {
    var pat := SchemeWithEncodedSlashes;
    if |s| < |pat| {
      assert EncodeNestedScheme(s) == s;
      if Contains(s, pat) { ContainsNeedsLength(s, pat); }
    } else if s[..|pat|] == pat {
      EncodeNestedSchemeLeavesNone(s[|pat|..]);
      NoPatternAfterReplacement(EncodeNestedScheme(s[|pat|..]));
      assert EncodeNestedScheme(s) == FullyEncodedScheme + EncodeNestedScheme(s[|pat|..]);
    } else {
      EncodeNestedSchemeLeavesNone(s[1..]);
      NoPatternAfterCopy(s);
      assert EncodeNestedScheme(s) == [s[0]] + EncodeNestedScheme(s[1..]);
    }
  }

  /** Encoding twice is encoding once. */
  lemma EncodeNestedSchemeIdempotent(s: string)
    ensures EncodeNestedScheme(EncodeNestedScheme(s)) == EncodeNestedScheme(s)
  {
    EncodeNestedSchemeLeavesNone(s);
    ReplaceAllAbsent(EncodeNestedScheme(s), SchemeWithEncodedSlashes, FullyEncodedScheme);
  }

  // ---------------------------------------------------------------------------
  // The edits of the URL, in the order the source applies them

  /** `if (urlObj.protocol === 'http:') urlObj.protocol = 'https:'`. */
  function UpgradeProtocol(u: Url): (r: Url)
    ensures r.scheme == if u.scheme == Http then Https else u.scheme
    ensures r == u.(scheme := r.scheme, port := r.port)
    ensures r.port == if u.scheme == Http && u.port == Some(443) then None else u.port
  {
    if Protocol(u.scheme) == "http:" then SetProtocol(u, "https:") else u
  }

  /** `urlObj.pathname = urlObj.pathname.replace(/(?<!https?:)\/{2,}/g, '/')` when the
      path is not empty. */
  function CollapsePath(u: Url): (r: Url)
    ensures r == u.(pathname := r.pathname)
    ensures StartsWith(u.pathname, "/") && '\\' !in u.pathname
            ==> r.pathname == CollapseSlashes(u.pathname)
  {
    if u.pathname != "" then
      var c := CollapseSlashes(u.pathname);
      CollapseKeepsLeadingSlash(u.pathname);
      CollapseKeepsOtherChars([], u.pathname);
      SetPathname(u, c)
    else u
  }

  /** `urlObj.pathname = decodeURI(urlObj.pathname)` when the path is not empty; the
      decoder fails with a URIError on malformed percent-escapes. */
  function DecodePath(u: Url, decodeUri: string -> Option<string>): (r: Result<Url>)
    ensures u.pathname == "" ==> r == Ok(u)
    ensures u.pathname != "" && decodeUri(u.pathname).None? ==> r == Err(UriError(u.pathname))
    ensures u.pathname != "" && decodeUri(u.pathname).Some?
            ==> r == Ok(SetPathname(u, decodeUri(u.pathname).value))
  {
    if u.pathname == "" then Ok(u)
    else
      match decodeUri(u.pathname)
      case None => Err(UriError(u.pathname))
      case Some(d) => Ok(SetPathname(u, d))
  }

  /** Decoding changes only the path. A non-empty path that decodes is an absolute path
      without backslashes, and it is the decoded text itself when that text already is one. */
  lemma DecodedPathShape(u: Url, decodeUri: string -> Option<string>)
    requires DecodePath(u, decodeUri).Ok?
    ensures var d := DecodePath(u, decodeUri).value;
      d == u.(pathname := d.pathname)
      && (u.pathname != "" ==> StartsWith(d.pathname, "/") && '\\' !in d.pathname)
      && (u.pathname != "" && StartsWith(decodeUri(u.pathname).value, "/")
            && '\\' !in decodeUri(u.pathname).value
          ==> d.pathname == decodeUri(u.pathname).value)
  {
  }

  /** `urlObj.hostname = urlObj.hostname.replace(/\.$/, '')` when the host is not empty.
      Setting an empty host is refused by the URL, so a host that is a lone dot stays. */
  function StripHostDot(u: Url): (r: Url)
    ensures r == u.(hostname := r.hostname)
    ensures ValidHost(u.hostname) && IsLowerAscii(u.hostname) ==>
      r.hostname == if u.hostname == "." then u.hostname else DropTrailing(u.hostname, '.')
  {
    if u.hostname != "" then SetHostname(u, DropTrailing(u.hostname, '.')) else u
  }

  /** `urlObj.searchParams.sort()`: the parameters are stably sorted by name and written
      back, which removes an empty query. */
  function SortQuery(u: Url): (r: Url)
    ensures r == u.(query := r.query, searchParams := r.searchParams)
    ensures SortedByName(r.searchParams)
    ensures multiset(r.searchParams) == multiset(u.searchParams)
    ensures forall n :: Named(r.searchParams, n) == Named(u.searchParams, n)
    ensures r.query.None? <==> u.searchParams == []
    ensures u.searchParams != [] ==> r.query == Some(SerializeParams(r.searchParams))
  {
    SortIsStableSort(u.searchParams);
    SetParams(u, Sort(u.searchParams))
  }

  /** `urlObj.pathname = urlObj.pathname.replace(/\/$/, '')`: one trailing slash goes,
      and the URL turns the empty path back into `/`. */
  function StripPathSlash(u: Url): (r: Url)
    ensures r == u.(pathname := r.pathname)
    ensures StartsWith(u.pathname, "/") && '\\' !in u.pathname ==>
      r.pathname == if u.pathname == "/" then "/" else DropTrailing(u.pathname, '/')
  {
    SetPathname(u, DropTrailing(u.pathname, '/'))
  }

  /** The record after all edits of the URL object; fails only when `decodeURI` does. */
  function NormalizedRecord(u: Url, decodeUri: string -> Option<string>): Result<Url> {
    match DecodePath(CollapsePath(UpgradeProtocol(u)), decodeUri)
    case Err(e) => Err(e)
    case Ok(d) => Ok(StripPathSlash(SortQuery(StripHostDot(d))))
  }

  /** The string edits after `urlObj.toString()`: the trailing slash of a root URL
      without a hash goes, then nested `https:%2F%2F` is encoded. */
  function Render(u: Url): (s: string)
    ensures !Contains(s, SchemeWithEncodedSlashes)
  {
    var full := Serialize(u);
    var trimmed := if u.pathname == "/" && Hash(u) == "" then DropTrailing(full, '/') else full;
    EncodeNestedSchemeLeavesNone(trimmed);
    EncodeNestedScheme(trimmed)
  }

  /** The string the normalizer makes of a parsed URL. */
  function NormalizeParsed(u: Url, decodeUri: string -> Option<string>): Result<string> {
    match NormalizedRecord(u, decodeUri)
    case Err(e) => Err(e)
    case Ok(n) => Ok(Render(n))
  }

  /** What `normalizeUrl(urlString)` returns or throws. */
  function Normalized(urlString: string, decodeUri: string -> Option<string>): Result<string> {
    match Parse(urlString)
    case Err(e) => Err(e)
    case Ok(u) => NormalizeParsed(u, decodeUri)
  }

  /** `normalizeUrl`, threading the URL object through the edits in source order. */
  method NormalizeUrl(urlString: string, decodeUri: string -> Option<string>)
    returns (r: Result<string>)
    ensures r == Normalized(urlString, decodeUri)
  {
    var parsed := Parse(urlString);
    if parsed.Err? {
      return Err(parsed.error);
    }
    assert Normalized(urlString, decodeUri) == NormalizeParsed(parsed.value, decodeUri);
    var urlObj := parsed.value;
    if Protocol(urlObj.scheme) == "http:" {
      urlObj := SetProtocol(urlObj, "https:");
    }
    assert urlObj == UpgradeProtocol(parsed.value);
    if urlObj.pathname != "" {
      urlObj := SetPathname(urlObj, CollapseSlashes(urlObj.pathname));
    }
    assert urlObj == CollapsePath(UpgradeProtocol(parsed.value));
    ghost var before := urlObj;
    if urlObj.pathname != "" {
      var decoded := decodeUri(urlObj.pathname);
      if decoded.None? {
        assert DecodePath(before, decodeUri) == Err(UriError(urlObj.pathname));
        return Err(UriError(urlObj.pathname));
      }
      urlObj := SetPathname(urlObj, decoded.value);
    }
    assert DecodePath(before, decodeUri) == Ok(urlObj);
    if urlObj.hostname != "" {
      urlObj := SetHostname(urlObj, DropTrailing(urlObj.hostname, '.'));
    }
    urlObj := SetParams(urlObj, Sort(urlObj.searchParams));
    urlObj := SetPathname(urlObj, DropTrailing(urlObj.pathname, '/'));
    assert NormalizedRecord(parsed.value, decodeUri) == Ok(urlObj);
    var s := Serialize(urlObj);
    if urlObj.pathname == "/" && Hash(urlObj) == "" {
      s := DropTrailing(s, '/');
    }
    s := EncodeNestedScheme(s);
    return Ok(s);
  }

  // ---------------------------------------------------------------------------
  // What the normalizer promises about a parsed URL

  /** The pathname after `decodeURI`, as the pathname setter stores it. */
  function DecodedPathname(u: Url, decodeUri: string -> Option<string>): string
    requires decodeUri(CollapseSlashes(u.pathname)).Some?
  {
    SetPathname(u, decodeUri(CollapseSlashes(u.pathname)).value).pathname
  }

  /** The stages before the host edit: the protocol upgrade leaves the path alone and the
      collapsed path is never empty, so decoding is always applied to it. */
  lemma DecodeStage(u: Url, decodeUri: string -> Option<string>)
    requires WellFormed(u)
    ensures var c := CollapsePath(UpgradeProtocol(u));
      c == UpgradeProtocol(u).(pathname := CollapseSlashes(u.pathname))
      && c.pathname != ""
      && DecodePath(c, decodeUri)
         == match decodeUri(CollapseSlashes(u.pathname))
            case None => Err(UriError(CollapseSlashes(u.pathname)))
            case Some(d) => Ok(SetPathname(c, d))
  {
    CollapseKeepsLeadingSlash(u.pathname);
  }

  /** Normalizing a parsed URL fails exactly when `decodeURI` rejects the collapsed path,
      and the error carries that path. */
  lemma NormalizedRecordFails(u: Url, decodeUri: string -> Option<string>)
    requires WellFormed(u)
    ensures NormalizedRecord(u, decodeUri).Err? <==> decodeUri(CollapseSlashes(u.pathname)).None?
    ensures NormalizedRecord(u, decodeUri).Err? ==>
      NormalizedRecord(u, decodeUri).error == UriError(CollapseSlashes(u.pathname))
  {
    DecodeStage(u, decodeUri);
  }

  /** The normalized record, stage by stage, for a path that decodes. */
  lemma NormalizedRecordStages(u: Url, decodeUri: string -> Option<string>)
    requires WellFormed(u) && decodeUri(CollapseSlashes(u.pathname)).Some?
    ensures NormalizedRecord(u, decodeUri)
            == Ok(StripPathSlash(SortQuery(StripHostDot(
                 UpgradeProtocol(u).(pathname := DecodedPathname(u, decodeUri))))))
  {
    DecodeStage(u, decodeUri);
    assert SetPathname(CollapsePath(UpgradeProtocol(u)), decodeUri(CollapseSlashes(u.pathname)).value)
           == UpgradeProtocol(u).(pathname := DecodedPathname(u, decodeUri));
  }

  /** The scheme becomes `https:` when it was `http:` and stays otherwise; the port is
      dropped only where it was 443 on an `http:` URL, which is the `https:` default. */
  lemma NormalizedScheme(u: Url, decodeUri: string -> Option<string>)
    requires WellFormed(u) && NormalizedRecord(u, decodeUri).Ok?
    ensures var n := NormalizedRecord(u, decodeUri).value;
      n.scheme == (if u.scheme == Http then Https else u.scheme)
      && n.port == (if u.scheme == Http && u.port == Some(443) then None else u.port)
  {
    NormalizedRecordFails(u, decodeUri);
    NormalizedRecordStages(u, decodeUri);
  }

  /** The host keeps its text except for one trailing dot; a host that is a lone dot
      stays, since the URL refuses an empty host. Any other host ending in a dot is one
      character shorter afterwards. */
  lemma NormalizedHost(u: Url, decodeUri: string -> Option<string>)
    requires WellFormed(u) && NormalizedRecord(u, decodeUri).Ok?
    ensures NormalizedRecord(u, decodeUri).value.hostname
            == if u.hostname == "." then "." else DropTrailing(u.hostname, '.')
    ensures |u.hostname| >= 2 && u.hostname[|u.hostname| - 1] == '.' ==>
      |NormalizedRecord(u, decodeUri).value.hostname| == |u.hostname| - 1
  {
    NormalizedRecordFails(u, decodeUri);
    NormalizedRecordStages(u, decodeUri);
    if |u.hostname| >= 2 && u.hostname[|u.hostname| - 1] == '.' {
      TrailingDotGoes(u.hostname);
    }
  }

  /** The parameters come out stably sorted by name: the same pairs, each name's pairs
      in their original order; an empty list leaves no query. The fragment is kept. */
  lemma NormalizedQueryAndFragment(u: Url, decodeUri: string -> Option<string>)
    requires WellFormed(u) && NormalizedRecord(u, decodeUri).Ok?
    ensures var n := NormalizedRecord(u, decodeUri).value;
      SortedByName(n.searchParams)
      && multiset(n.searchParams) == multiset(u.searchParams)
      && (forall name :: Named(n.searchParams, name) == Named(u.searchParams, name))
      && (n.query.None? <==> u.searchParams == [])
      && n.fragment == u.fragment
  {
    NormalizedRecordFails(u, decodeUri);
    NormalizedRecordStages(u, decodeUri);
  }

  /** The path is the decoded path with one trailing slash removed, and `/` for the root. */
  lemma NormalizedPath(u: Url, decodeUri: string -> Option<string>)
    requires WellFormed(u) && NormalizedRecord(u, decodeUri).Ok?
    ensures var p := DecodedPathname(u, decodeUri);
      NormalizedRecord(u, decodeUri).value.pathname
      == if p == "/" then "/" else DropTrailing(p, '/')
  {
    NormalizedRecordFails(u, decodeUri);
    NormalizedRecordStages(u, decodeUri);
  }

  /** A decoder that leaves the collapsed path as it is (a path without escapes) gives the
      collapsed path, less one trailing slash. */
  lemma NormalizedPlainPath(u: Url, decodeUri: string -> Option<string>)
    requires WellFormed(u) && decodeUri(CollapseSlashes(u.pathname)) == Some(CollapseSlashes(u.pathname))
    ensures NormalizedRecord(u, decodeUri).Ok?
    ensures var c := CollapseSlashes(u.pathname);
      NormalizedRecord(u, decodeUri).value.pathname
      == if c == "/" then "/" else DropTrailing(c, '/')
  {
    NormalizedRecordFails(u, decodeUri);
    NormalizedPath(u, decodeUri);
    CollapseKeepsLeadingSlash(u.pathname);
    CollapseKeepsOtherChars([], u.pathname);
    assert '\\' !in CollapseSlashes(u.pathname) by {
      assert '\\' != '/';
    }
  }

  /** Normalizing keeps a parsed URL well formed. */
  lemma NormalizedWellFormed(u: Url, decodeUri: string -> Option<string>)
    requires WellFormed(u) && NormalizedRecord(u, decodeUri).Ok?
    ensures WellFormed(NormalizedRecord(u, decodeUri).value)
  {
    NormalizedScheme(u, decodeUri);
    NormalizedHost(u, decodeUri);
    NormalizedPath(u, decodeUri);
    HostLessDotWellFormed(u.hostname);
    PathLessSlashWellFormed(DecodedPathname(u, decodeUri));
  }

  lemma HostLessDotWellFormed(h: string)
    requires ValidHost(h) && IsLowerAscii(h)
    ensures var r := if h == "." then h else DropTrailing(h, '.');
      ValidHost(r) && IsLowerAscii(r)
  {
  }

  lemma PathLessSlashWellFormed(p: string)
    requires StartsWith(p, "/") && '\\' !in p
    ensures var r := if p == "/" then p else DropTrailing(p, '/');
      StartsWith(r, "/") && '\\' !in r
  {
    var r := if p == "/" then p else DropTrailing(p, '/');
    assert r == p[..|r|];
    assert forall k :: 0 <= k < |r| ==> r[k] == p[k];
  }

  lemma TrailingDotGoes(h: string)
    requires |h| >= 2 && h[|h| - 1] == '.'
    ensures h != "." && |DropTrailing(h, '.')| == |h| - 1
  {
  }

  /** Normalizing is not idempotent: each pass removes one trailing dot of the host, so a
      host ending in two dots (and longer than two characters) changes again on a second
      pass. */
  lemma NormalizedHostNotIdempotent(u: Url, n: Url, decodeUri: string -> Option<string>)
    requires WellFormed(u) && NormalizedRecord(u, decodeUri) == Ok(n)
    requires |u.hostname| >= 3 && u.hostname[|u.hostname| - 1] == '.'
             && u.hostname[|u.hostname| - 2] == '.'
    ensures NormalizedRecord(n, decodeUri).Ok? ==>
      |NormalizedRecord(n, decodeUri).value.hostname| == |n.hostname| - 1
  {
    assert |n.hostname| >= 2 && n.hostname[|n.hostname| - 1] == '.' by {
      NormalizedHost(u, decodeUri);
      TwoDotsLoseOne(u.hostname, n.hostname);
    }
    assert WellFormed(n) by {
      NormalizedWellFormed(u, decodeUri);
    }
    PassShortensHost(n, decodeUri);
  }

  lemma TwoDotsLoseOne(h: string, n: string)
    requires |h| >= 3 && h[|h| - 1] == '.' && h[|h| - 2] == '.'
    requires n == if h == "." then "." else DropTrailing(h, '.')
    ensures |n| >= 2 && n[|n| - 1] == '.'
  {
  }

  lemma PassShortensHost(n: Url, decodeUri: string -> Option<string>)
    requires WellFormed(n) && |n.hostname| >= 2 && n.hostname[|n.hostname| - 1] == '.'
    ensures NormalizedRecord(n, decodeUri).Ok? ==>
      |NormalizedRecord(n, decodeUri).value.hostname| == |n.hostname| - 1
  {
    if NormalizedRecord(n, decodeUri).Ok? {
      NormalizedHost(n, decodeUri);
    }
  }

  /** A root URL without query and fragment loses its trailing slash in the output. */
  lemma RenderRoot(n: Url)
    requires n.pathname == "/" && n.query.None? && n.fragment.None?
    ensures Render(n) == EncodeNestedScheme(Protocol(n.scheme) + "//" + Authority(n))
  {
    var base := Protocol(n.scheme) + "//" + Authority(n);
    assert Serialize(n) == base + "/";
  }

  /** Without a root path, or with a non-empty hash, the serialization keeps its last
      character. */
  lemma RenderKeepsSerialization(n: Url)
    requires n.pathname != "/" || Hash(n) != ""
    ensures Render(n) == EncodeNestedScheme(Serialize(n))
  {
  }

  /** `normalizeUrl` throws exactly when `new URL` does or `decodeURI` does. */
  lemma NormalizedFails(urlString: string, decodeUri: string -> Option<string>)
    ensures Normalized(urlString, decodeUri).Err? <==>
      Parse(urlString).Err?
      || decodeUri(CollapseSlashes(Parse(urlString).value.pathname)).None?
  {
    if Parse(urlString).Ok? {
      NormalizedRecordFails(Parse(urlString).value, decodeUri);
    }
  }

  lemma {:induction false} SkipOnlySlashes(rest: string)
    requires forall k :: 0 <= k < |rest| ==> rest[k] == '/'
    ensures SkipSlashes(rest) == []
    decreases |rest|
  {
    if rest != [] {
      SkipOnlySlashes(rest[1..]);
    }
  }

  /** Nothing but slashes after `scheme:` leaves an empty host, which `new URL` rejects. */
  lemma RejectsMissingHost(input: string, s: Scheme, rest: string)
    requires forall k :: 0 <= k < |rest| ==> rest[k] == '/'
    ensures ParseAfterScheme(input, s, rest).Err?
  {
    SkipOnlySlashes(rest);
    var t := SkipSlashes(rest);
    assert FirstOf(t, {'/', '\\', '?', '#'}) == 0;
    assert t[..0] == [];
    EmptyAuthorityRejected(s);
  }

  lemma EmptyAuthorityRejected(s: Scheme)
    ensures ParseHostPort(s, []).None?
  {
    assert IndexOf([], ':') == 0;
    assert !ValidHost([]);
  }

  /** `new URL` rejects an `http:` URL with an empty host. */
  lemma RejectsEmptyHost(s: string)
    requires s == "http://"
    ensures Parse(s).Err?
  {
    assert TrimControl(s) == s;
    RemoveTabNewlineUnchanged(s);
    assert IndexOf(s, ':') == 4 by {
      assert s[4] == ':';
      assert forall k :: 0 <= k < 4 ==> s[k] != ':';
    }
    assert ToLower(s[..4]) + ":" == "http:";
    RejectsMissingHost(s, Http, s[5..]);
  }

  lemma {:induction false} TrimControlKeepsHead(s: string)
    requires s != [] && s[0] > ' '
    ensures TrimControl(s) != [] && TrimControl(s)[0] == s[0]
    decreases |s|
  {
    if s[|s| - 1] <= ' ' {
      TrimControlKeepsHead(s[..|s| - 1]);
    }
  }

  /** `new URL` without a base rejects a relative reference such as `/` or
      `/relative/path/`: no scheme precedes its first `:`. */
  lemma RejectsRelative(s: string)
    requires s != [] && s[0] == '/'
    ensures Parse(s).Err?
  {
    TrimControlKeepsHead(s);
    var t := RemoveTabNewline(TrimControl(s));
    assert t != [] && t[0] == '/';
    var colon := IndexOf(t, ':');
    assert colon < |t| ==> t[..colon][0] == '/';
  }

  lemma RejectsRelativeExamples()
    ensures Parse("/").Err? && Parse("/relative/path/").Err?
  {
    RejectsRelative("/");
    RejectsRelative("/relative/path/");
  }

  /** Lists that agree on every name's pairs are both empty or both not. */
  lemma SameNamedBothEmpty(a: seq<Param>, b: seq<Param>)
    requires forall name :: Named(a, name) == Named(b, name)
    ensures a == [] <==> b == []
  {
    if a != [] {
      NamedHead(a);
    }
    if b != [] {
      NamedHead(b);
    }
  }

  /** The edits after decoding see the parameters only through the sort. */
  lemma LateStagesIgnoreOrder(d: Url, e: Url)
    requires e == d.(query := e.query, searchParams := e.searchParams)
    requires forall name :: Named(e.searchParams, name) == Named(d.searchParams, name)
    ensures StripPathSlash(SortQuery(StripHostDot(d))) == StripPathSlash(SortQuery(StripHostDot(e)))
  {
    var h, h' := StripHostDot(d), StripHostDot(e);
    assert h' == h.(query := e.query, searchParams := e.searchParams);
    assert h.searchParams == d.searchParams && h'.searchParams == e.searchParams;
    SortDependsOnlyOnNamed(d.searchParams, e.searchParams);
    SameNamedBothEmpty(d.searchParams, e.searchParams);
    assert SortQuery(h) == SortQuery(h');
  }

  /** An `http:` URL and the `https:` URL with the same host, port, path and fragment,
      whose parameters differ only in the order of differently named pairs, normalize
      to the same record: the cache key does not tell them apart. */
  lemma UpgradeAndSortIdentify(u: Url, v: Url, decodeUri: string -> Option<string>)
    requires WellFormed(u) && WellFormed(v)
    requires u.scheme == Http && v.scheme == Https
    requires v.hostname == u.hostname && v.port == u.port && v.pathname == u.pathname
    requires v.fragment == u.fragment
    requires forall name :: Named(v.searchParams, name) == Named(u.searchParams, name)
    ensures NormalizedRecord(u, decodeUri) == NormalizedRecord(v, decodeUri)
  {
    assert UpgradeProtocol(v) == v;
    assert UpgradeProtocol(u) == v.(query := u.query, searchParams := u.searchParams);
    NormalizedRecordFails(u, decodeUri);
    NormalizedRecordFails(v, decodeUri);
    if decodeUri(CollapseSlashes(u.pathname)).Some? {
      assert DecodedPathname(u, decodeUri) == DecodedPathname(v, decodeUri);
      NormalizedRecordStages(u, decodeUri);
      NormalizedRecordStages(v, decodeUri);
      var d := UpgradeProtocol(u).(pathname := DecodedPathname(u, decodeUri));
      var e := UpgradeProtocol(v).(pathname := DecodedPathname(v, decodeUri));
      assert e == d.(query := e.query, searchParams := e.searchParams);
      assert d.searchParams == u.searchParams && e.searchParams == v.searchParams;
      LateStagesIgnoreOrder(d, e);
      assert NormalizedRecord(u, decodeUri) == Ok(StripPathSlash(SortQuery(StripHostDot(d))));
    }
  }
}
