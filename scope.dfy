/**
 * The route-scope resolver: the body of the `chi.Walk` callback inside the
 * OPTIONS branch of `Middleware`, and the list it accumulates.
 *
 * The walk itself is an input: the `(method, pattern)` pairs the router
 * reports, in the order it reports them.
 */
module Scope {
  import opened Paths

  datatype Option<T> = None | Some(value: T)

  /** `RouteInfo`; `verb` is its `Method` field. The resolver never fills in `Description`. */
  datatype RouteInfo = RouteInfo(verb: string, path: string, description: string)

  /** One `(method, pattern)` pair reported by the router walk. */
  type Walked = (string, string)

  /** The request segments `u` are the first `|u|` segments of `sr`. */
  predicate InScope(u: seq<string>, sr: seq<string>) {
    |u| <= |sr| && sr[..|u|] == u
  }

  /**
   * What the walk callback does with one walked route, given the request
   * segments `u`: normalise and split the pattern, keep it when `u` is a
   * segment-wise prefix, and re-root the remaining segments at "/".
   */
  function RouteEntry(u: seq<string>, m: string, pattern: string): Option<RouteInfo> {
    SegmentEntry(u, m, UriSegments(NormalizeMounts(pattern)))
  }

  /** The kept-or-dropped decision on the split pattern `sr`. */
  function SegmentEntry(u: seq<string>, m: string, sr: seq<string>): Option<RouteInfo> {
    if InScope(u, sr) then Some(RouteInfo(m, "/" + Join(sr[|u|..]), "")) else None
  }

  function EntryList(e: Option<RouteInfo>): seq<RouteInfo> {
    match e
    case None => []
    case Some(info) => [info]
  }

  /**
   * What a walk callback that appends `visit`'s keep-or-drop result has
   * collected after the router walk has reported every pair of `walked`,
   * in order.
   */
  function Gather(visit: Walked -> Option<RouteInfo>, walked: seq<Walked>): (r: seq<RouteInfo>)
    ensures |r| <= |walked|
    decreases |walked|
  {
    if walked == [] then []
    else Gather(visit, walked[..|walked| - 1]) + EntryList(visit(walked[|walked| - 1]))
  }

  /** The callback `Middleware` passes to the walk, for request segments `u`. */
  function Visit(u: seq<string>): Walked -> Option<RouteInfo> {
    (w: Walked) => RouteEntry(u, w.0, w.1)
  }

  /** The `routes` slice after the walk has reported every pair of `walked`. */
  function ScopeRoutes(u: seq<string>, walked: seq<Walked>): seq<RouteInfo> {
    Gather(Visit(u), walked)
  }

  /**
   * The walk callback for one route: the length check, then the
   * index-by-index comparison that gives up at the first mismatch.
   */
  method VisitRoute(u: seq<string>, m: string, pattern: string) returns (e: Option<RouteInfo>)
    ensures e.Some? <==> InScope(u, UriSegments(NormalizeMounts(pattern)))
    ensures e == RouteEntry(u, m, pattern)
  {
    var sr := UriSegments(NormalizeMounts(pattern));
    var lr, lu := |sr|, |u|;
    if lr < lu {
      return None;
    }
    for i := 0 to lu
      invariant forall k :: 0 <= k < i ==> u[k] == sr[k]
    {
      if u[i] != sr[i] {
        assert sr[..lu][i] != u[i];
        return None;
      }
    }
    assert sr[..lu] == u;
    e := Some(RouteInfo(m, "/" + Join(sr[lu..]), ""));
  }

  /** The whole walk: one callback per reported pair, appending what it keeps. */
  method CollectRoutes(u: seq<string>, walked: seq<Walked>) returns (routes: seq<RouteInfo>)
    ensures routes == ScopeRoutes(u, walked)
  {
    routes := [];
    for k := 0 to |walked|
      invariant routes == ScopeRoutes(u, walked[..k])
    {
      var e := VisitRoute(u, walked[k].0, walked[k].1);
      ScopeRoutesStep(u, walked, k);
      if e.Some? {
        routes := routes + [e.value];
      }
    }
    assert walked[..|walked|] == walked;
  }

  /** One more reported pair appends its entry, if kept. */
  lemma ScopeRoutesStep(u: seq<string>, walked: seq<Walked>, k: nat)
    requires k < |walked|
    ensures ScopeRoutes(u, walked[..k + 1]) == ScopeRoutes(u, walked[..k]) + EntryList(RouteEntry(u, walked[k].0, walked[k].1))
  {
    assert walked[..k + 1][..k] == walked[..k];
  }

  // ---------------------------------------------------------------------
  // Accumulation: walk order, one entry per kept route, nothing else.

  /** The result of a longer walk extends that of its first part. */
  lemma {:induction false} GatherAppend(visit: Walked -> Option<RouteInfo>, a: seq<Walked>, b: seq<Walked>)
    ensures Gather(visit, a + b) == Gather(visit, a) + Gather(visit, b)
    decreases |b|
  {
    if b == [] {
      assert a + b == a;
    } else {
      var b' := b[..|b| - 1];
      assert (a + b)[..|a + b| - 1] == a + b';
      assert (a + b)[|a + b| - 1] == b[|b| - 1];
      GatherAppend(visit, a, b');
    }
  }

  /** Everything gathered is the result of visiting some walked pair. */
  lemma {:induction false} GatheredFrom(visit: Walked -> Option<RouteInfo>, walked: seq<Walked>, info: RouteInfo)
    requires info in Gather(visit, walked)
    ensures exists k :: 0 <= k < |walked| && visit(walked[k]) == Some(info)
    decreases |walked|
  {
    var n := |walked| - 1;
    var init := walked[..n];
    if info in Gather(visit, init) {
      GatheredFrom(visit, init, info);
      var k :| 0 <= k < n && visit(init[k]) == Some(info);
      assert walked[k] == init[k];
    } else {
      assert visit(walked[n]) == Some(info);
    }
  }

  /** Every walked pair that is kept is gathered. */
  lemma GatheredKept(visit: Walked -> Option<RouteInfo>, walked: seq<Walked>, k: nat, info: RouteInfo)
    requires k < |walked| && visit(walked[k]) == Some(info)
    ensures info in Gather(visit, walked)
  {
    var before, w, after := walked[..k], walked[k], walked[k + 1..];
    assert walked == before + [w] + after;
    GatherAppend(visit, before + [w], after);
    GatherAppend(visit, before, [w]);
    assert [w][..0] == [];
    assert Gather(visit, walked) == Gather(visit, before) + [info] + Gather(visit, after);
  }

  /** When every walked pair is kept, the result is exactly their entries, in walk order. */
  lemma {:induction false} GatheredAll(visit: Walked -> Option<RouteInfo>, walked: seq<Walked>, entries: seq<RouteInfo>)
    requires |entries| == |walked|
    requires forall k :: 0 <= k < |walked| ==> visit(walked[k]) == Some(entries[k])
    ensures Gather(visit, walked) == entries
    decreases |walked|
  {
    if walked != [] {
      var n := |walked| - 1;
      var init := walked[..n];
      assert forall k :: 0 <= k < n ==> init[k] == walked[k];
      GatheredAll(visit, init, entries[..n]);
      assert entries == entries[..n] + [entries[n]];
    }
  }

  /** The routes listed for a longer walk extend those of its first part. */
  lemma ScopeRoutesAppend(u: seq<string>, a: seq<Walked>, b: seq<Walked>)
    ensures ScopeRoutes(u, a + b) == ScopeRoutes(u, a) + ScopeRoutes(u, b)
  {
    GatherAppend(Visit(u), a, b);
  }

  /** A single walked route contributes its entry, if kept, and nothing else. */
  lemma ScopeRoutesSingle(u: seq<string>, w: Walked)
    ensures ScopeRoutes(u, [w]) == EntryList(RouteEntry(u, w.0, w.1))
  {
    assert [w][..0] == [];
  }

  /** Duplicates are not removed: a route walked twice is listed twice. */
  lemma DuplicatesKept(u: seq<string>, w: Walked)
    requires RouteEntry(u, w.0, w.1).Some?
    ensures ScopeRoutes(u, [w, w]) == [RouteEntry(u, w.0, w.1).value, RouteEntry(u, w.0, w.1).value]
  {
    ScopeRoutesAppend(u, [w], [w]);
    ScopeRoutesSingle(u, w);
    assert [w, w] == [w] + [w];
  }

  /** The walk callback keeps walked route `w` and lists it as `info`. */
  predicate ListedAs(u: seq<string>, w: Walked, info: RouteInfo) {
    RouteEntry(u, w.0, w.1) == Some(info)
  }

  /** Every listed entry comes from some walked route, and every kept walked route is listed. */
  lemma ScopeRoutesMembers(u: seq<string>, walked: seq<Walked>, info: RouteInfo)
    ensures info in ScopeRoutes(u, walked) <==>
      exists k :: 0 <= k < |walked| && ListedAs(u, walked[k], info)
  {
    if info in ScopeRoutes(u, walked) {
      GatheredFrom(Visit(u), walked, info);
    }
    if exists k :: 0 <= k < |walked| && ListedAs(u, walked[k], info) {
      var k :| 0 <= k < |walked| && ListedAs(u, walked[k], info);
      GatheredKept(Visit(u), walked, k, info);
    }
  }

  /**
   * Every listed entry carries the method of a walked route with its
   * pattern, and an empty description.
   */
  lemma ListedFields(u: seq<string>, walked: seq<Walked>, info: RouteInfo)
    requires info in ScopeRoutes(u, walked)
    ensures info.description == ""
    ensures exists k :: 0 <= k < |walked| && walked[k].0 == info.verb
  {
    ScopeRoutesMembers(u, walked, info);
    var k :| 0 <= k < |walked| && ListedAs(u, walked[k], info);
    EntryFields(u, walked[k].0, walked[k].1);
  }

  /** Each entry keeps its walked route's method unchanged. */
  lemma EntryFields(u: seq<string>, m: string, pattern: string)
    ensures RouteEntry(u, m, pattern).Some? ==> RouteEntry(u, m, pattern).value.verb == m
    ensures RouteEntry(u, m, pattern).Some? ==> RouteEntry(u, m, pattern).value.description == ""
  {
  }

  // ---------------------------------------------------------------------
  // What is kept, as text: the request path and the normalised pattern.

  /**
   * For a request URI other than the root, a walked route is kept exactly
   * when its normalised pattern equals the URI (listed as "/") or extends
   * it past a slash (listed as the text after the URI). A pattern that only
   * shares a textual prefix, such as "/route/test2" for "/route/test", is
   * dropped.
   */
  lemma EntryTextual(uri: string, m: string, pattern: string)
    requires uri != "/"
    ensures RouteEntry(UriSegments(uri), m, pattern) == TextualEntry(uri, m, NormalizeMounts(pattern))
  {
    var n := NormalizeMounts(pattern);
    if n == "/" {
      SlashPatternEntry(uri, m);
    } else if n == uri {
      EqualEntry(uri, m);
    } else if |uri| < |n| && n[..|uri|] == uri && n[|uri|] == '/' {
      BelowEntry(uri, m, n);
    } else {
      OutsideEntry(uri, m, n);
    }
  }

  /** The textual reading of the kept-or-dropped decision, for a normalised pattern n. */
  function TextualEntry(uri: string, m: string, n: string): Option<RouteInfo> {
    if n == uri then Some(RouteInfo(m, "/", ""))
    else if |uri| < |n| && n[..|uri|] == uri && n[|uri|] == '/' then Some(RouteInfo(m, n[|uri|..], ""))
    else None
  }

  lemma SlashPatternEntry(uri: string, m: string)
    requires uri != "/"
    ensures SegmentEntry(UriSegments(uri), m, UriSegments("/")) == TextualEntry(uri, m, "/")
  {
    var u := UriSegments(uri);
    if uri == "" {
      assert u == [""];
      assert "/" + Join([]) == "/";
    } else {
      SingleEmptySegment(uri);
    }
  }

  lemma EqualEntry(uri: string, m: string)
    requires uri != "/"
    ensures SegmentEntry(UriSegments(uri), m, UriSegments(uri)) == Some(RouteInfo(m, "/", ""))
  {
    var u := UriSegments(uri);
    assert u[..|u|] == u;
    assert u[|u|..] == [];
    assert "/" + Join([]) == "/";
  }

  lemma BelowEntry(uri: string, m: string, n: string)
    requires uri != "/" && n != "/"
    requires |uri| < |n| && n[..|uri|] == uri && n[|uri|] == '/'
    ensures SegmentEntry(UriSegments(uri), m, UriSegments(n)) == Some(RouteInfo(m, n[|uri|..], ""))
  {
    var u := UriSegments(uri);
    var t := n[|uri| + 1..];
    assert n == uri + "/" + t;
    SplitAppend(uri, t);
    JoinSplit(t);
    var sr := UriSegments(n);
    assert sr == u + Split(t);
    assert sr[..|u|] == u;
    assert sr[|u|..] == Split(t);
    assert n[|uri|..] == "/" + t;
  }

  lemma OutsideEntry(uri: string, m: string, n: string)
    requires uri != "/" && n != "/" && n != uri
    requires !(|uri| < |n| && n[..|uri|] == uri && n[|uri|] == '/')
    ensures SegmentEntry(UriSegments(uri), m, UriSegments(n)) == None
  {
    InScopeIsBelow(uri, n);
  }

  /** If the request segments prefix the pattern's, the pattern text extends the URI. */
  lemma InScopeIsBelow(uri: string, n: string)
    requires uri != "/" && n != "/"
    ensures InScope(UriSegments(uri), UriSegments(n)) ==>
      n == uri || (|uri| < |n| && n[..|uri|] == uri && n[|uri|] == '/')
  {
    var u := UriSegments(uri);
    var sr := UriSegments(n);
    if InScope(u, sr) {
      var rest := sr[|u|..];
      assert sr == u + rest;
      if rest != [] {
        JoinAppend(u, rest);
        assert n == uri + "/" + Join(rest);
        assert n[..|uri|] == uri && n[|uri|] == '/';
      } else {
        assert sr == u;
      }
    }
  }

  /** An exact match is listed at "/". */
  lemma ExactMatch(uri: string, m: string, pattern: string)
    requires NormalizeMounts(pattern) == uri
    ensures RouteEntry(UriSegments(uri), m, pattern) == Some(RouteInfo(m, "/", ""))
  {
    if uri != "/" {
      EntryTextual(uri, m, pattern);
    } else {
      RootEntry(m, pattern);
    }
  }

  /** A strict descendant is listed with the request URI cut off its front. */
  lemma DescendantListed(uri: string, m: string, pattern: string, rest: string)
    requires uri != "/"
    requires NormalizeMounts(pattern) == uri + rest && rest != [] && rest[0] == '/'
    ensures RouteEntry(UriSegments(uri), m, pattern) == Some(RouteInfo(m, rest, ""))
  {
    EntryTextual(uri, m, pattern);
    var n := uri + rest;
    assert n[..|uri|] == uri && n[|uri|..] == rest;
  }

  /**
   * Sharing a textual prefix is not enough: a pattern that continues the
   * request URI with anything but a slash is dropped.
   */
  lemma TextualSiblingDropped(uri: string, m: string, pattern: string, tail: string)
    requires uri != "/"
    requires NormalizeMounts(pattern) == uri + tail && tail != [] && tail[0] != '/'
    ensures RouteEntry(UriSegments(uri), m, pattern) == None
  {
    EntryTextual(uri, m, pattern);
    var n := uri + tail;
    assert n[|uri|] == tail[0];
  }

  /**
   * At the root, a walked route is kept exactly when its normalised
   * pattern is empty (listed as "/") or absolute (listed unchanged).
   */
  lemma RootEntry(m: string, pattern: string)
    ensures RouteEntry(UriSegments("/"), m, pattern) ==
      var n := NormalizeMounts(pattern);
      if n == "" then Some(RouteInfo(m, "/", ""))
      else if n[0] == '/' then Some(RouteInfo(m, n, ""))
      else None
  {
    RootLikeEmpty();
    EntryTextual("", m, pattern);
    var n := NormalizeMounts(pattern);
    if n != "" {
      assert n[0..] == n;
      assert n[..1] == "/" <==> n[0] == '/';
    }
  }

  /** Root totality: every absolute pattern is kept at the root, with its normalised pattern as path. */
  lemma RootTotality(m: string, pattern: string)
    requires pattern != [] && pattern[0] == '/'
    ensures RouteEntry(UriSegments("/"), m, pattern) == Some(RouteInfo(m, NormalizeMounts(pattern), ""))
  {
    RootEntry(m, pattern);
    NormalizeShape(pattern);
  }

  /** Describing the root lists every absolute walked route, in walk order. */
  lemma RootDescribesAll(walked: seq<Walked>)
    requires forall k :: 0 <= k < |walked| ==> walked[k].1 != [] && walked[k].1[0] == '/'
    ensures |ScopeRoutes(UriSegments("/"), walked)| == |walked|
    ensures forall k :: 0 <= k < |walked| ==>
      ScopeRoutes(UriSegments("/"), walked)[k] == RouteInfo(walked[k].0, NormalizeMounts(walked[k].1), "")
  {
    var u := UriSegments("/");
    var entries := seq(|walked|, k requires 0 <= k < |walked| => RouteInfo(walked[k].0, NormalizeMounts(walked[k].1), ""));
    forall k | 0 <= k < |walked|
      ensures RouteEntry(u, walked[k].0, walked[k].1) == Some(entries[k])
    {
      RootTotality(walked[k].0, walked[k].1);
    }
    GatheredAll(Visit(u), walked, entries);
  }
}
