/**
 * The routes the repository's middleware test registers, and what the
 * resolver lists for the requests the test sends.
 *
 * The router reports a route registered inside `Route` or `Mount` with the
 * sub-router's mount marker (slash, star, slash) after each prefix, so the
 * test's "/hello/{id}" route under "/route" and "/test" arrives with two
 * markers. Each example names its request URI and walked pattern as
 * parameters fixed by its requires.
 */
module TestTree {
  import opened Paths
  import opened Scope

  lemma StarFree(p: string)
    requires '*' !in p
    ensures NormalizeMounts(p) == p
  {
    NormalizeStarFreePrefix(p, "");
    assert p + "" == p;
  }

  /** A route one sub-router deep loses its mount marker. */
  lemma MountedOnce(a: string, leaf: string)
    requires '*' !in a && '*' !in leaf
    ensures NormalizeMounts(a + "/*/" + leaf) == a + "/" + leaf
  {
    MountedPattern(a, leaf);
    StarFree(leaf);
  }

  /** A route two sub-routers deep loses both mount markers. */
  lemma MountedTwice(a: string, mid: string, leaf: string)
    requires '*' !in a && '*' !in mid && '*' !in leaf && mid != []
    ensures NormalizeMounts(a + "/*/" + mid + "/*/" + leaf) == a + "/" + mid + "/" + leaf
  {
    var inner := mid + "/*/" + leaf;
    calc {
      NormalizeMounts(a + "/*/" + mid + "/*/" + leaf);
      { assert a + "/*/" + mid + "/*/" + leaf == a + "/*/" + inner; }
      NormalizeMounts(a + "/*/" + inner);
      { MountedPattern(a, inner); }
      a + "/" + NormalizeMounts(inner);
      { MountedOnce(mid, leaf); }
      a + "/" + (mid + "/" + leaf);
      a + "/" + mid + "/" + leaf;
    }
  }

  // Request "/route/test2/inner": the mounted route itself, listed at "/".
  lemma DescribeInner(uri: string, pattern: string)
    requires uri == "/route/test2/inner"
    requires pattern == "/route" + "/*/" + "test2" + "/*/" + "inner"
    ensures RouteEntry(UriSegments(uri), "GET", pattern) == Some(RouteInfo("GET", "/", ""))
  {
    MountedTwice("/route", "test2", "inner");
    ExactMatch(uri, "GET", pattern);
  }

  // Request "/route/test2": the mounted route, listed as "/inner".
  lemma DescribeTest2(uri: string, pattern: string)
    requires uri == "/route/test2"
    requires pattern == "/route" + "/*/" + "test2" + "/*/" + "inner"
    ensures RouteEntry(UriSegments(uri), "GET", pattern) == Some(RouteInfo("GET", "/inner", ""))
  {
    MountedTwice("/route", "test2", "inner");
    DescendantListed(uri, "GET", pattern, "/inner");
  }

  // Request "/route/test": the two routes of the "/test" sub-router are
  // listed, the route under "/route/test2" is not, although its text starts
  // with "/route/test".
  lemma KeepHello(uri: string, hello: string)
    requires uri == "/route/test"
    requires hello == "/route" + "/*/" + "test" + "/*/" + "hello/{id}"
    ensures RouteEntry(UriSegments(uri), "GET", hello) == Some(RouteInfo("GET", "/hello/{id}", ""))
  {
    MountedTwice("/route", "test", "hello/{id}");
    DescendantListed(uri, "GET", hello, "/hello/{id}");
  }

  lemma KeepTrailingSlash(uri: string, slash: string)
    requires uri == "/route/test"
    requires slash == "/route" + "/*/" + "test" + "/*/" + ""
    ensures RouteEntry(UriSegments(uri), "POST", slash) == Some(RouteInfo("POST", "/", ""))
  {
    MountedTwice("/route", "test", "");
    DescendantListed(uri, "POST", slash, "/");
  }

  lemma DropSibling(uri: string, inner: string)
    requires uri == "/route/test"
    requires inner == "/route" + "/*/" + "test2" + "/*/" + "inner"
    ensures RouteEntry(UriSegments(uri), "GET", inner) == None
  {
    MountedTwice("/route", "test2", "inner");
    TextualSiblingDropped(uri, "GET", inner, "2/inner");
  }

  lemma DescribeTest(uri: string, hello: string, slash: string, inner: string)
    requires uri == "/route/test"
    requires hello == "/route" + "/*/" + "test" + "/*/" + "hello/{id}"
    requires slash == "/route" + "/*/" + "test" + "/*/" + ""
    requires inner == "/route" + "/*/" + "test2" + "/*/" + "inner"
    ensures ScopeRoutes(UriSegments(uri), [("GET", hello), ("POST", slash), ("GET", inner)])
         == [RouteInfo("GET", "/hello/{id}", ""), RouteInfo("POST", "/", "")]
  {
    var u := UriSegments(uri);
    var walked: seq<Walked> := [("GET", hello), ("POST", slash), ("GET", inner)];
    KeepHello(uri, hello);
    KeepTrailingSlash(uri, slash);
    DropSibling(uri, inner);
    ScopeRoutesAppend(u, [("GET", hello)], [("POST", slash)]);
    ScopeRoutesSingle(u, ("GET", hello));
    ScopeRoutesSingle(u, ("POST", slash));
    ScopeRoutesSingle(u, ("GET", inner));
    ScopeRoutesAppend(u, [("GET", hello), ("POST", slash)], [("GET", inner)]);
    assert walked == [("GET", hello), ("POST", slash)] + [("GET", inner)];
    assert [("GET", hello), ("POST", slash)] == [("GET", hello)] + [("POST", slash)];
  }

  // Request "/route/test/hello": the parameterised route, listed as "/{id}".
  lemma DescribeHello(uri: string, hello: string)
    requires uri == "/route/test/hello"
    requires hello == "/route" + "/*/" + "test" + "/*/" + "hello/{id}"
    ensures RouteEntry(UriSegments(uri), "GET", hello) == Some(RouteInfo("GET", "/{id}", ""))
  {
    MountedTwice("/route", "test", "hello/{id}");
    DescendantListed(uri, "GET", hello, "/{id}");
  }

  // Request "/route": the top-level "/get" is dropped, the sub-router's
  // routes are listed below "/route".
  lemma DropTopLevel(uri: string, top: string)
    requires uri == "/route" && top == "/get"
    ensures RouteEntry(UriSegments(uri), "GET", top) == None
  {
    StarFree(top);
    EntryTextual(uri, "GET", top);
  }

  lemma KeepRoutedGet(uri: string, get: string)
    requires uri == "/route"
    requires get == "/route" + "/*/" + "get"
    ensures RouteEntry(UriSegments(uri), "GET", get) == Some(RouteInfo("GET", "/get", ""))
  {
    MountedOnce("/route", "get");
    DescendantListed(uri, "GET", get, "/get");
  }

  lemma KeepRoutedSlash(uri: string, slash: string)
    requires uri == "/route"
    requires slash == "/route" + "/*/" + "test" + "/*/" + ""
    ensures RouteEntry(UriSegments(uri), "POST", slash) == Some(RouteInfo("POST", "/test/", ""))
  {
    MountedTwice("/route", "test", "");
    DescendantListed(uri, "POST", slash, "/test/");
  }

  // Request "/": routes are listed with their whole normalised pattern.
  lemma DescribeRoot(slash: string)
    requires slash == "/route" + "/*/" + "test" + "/*/" + ""
    ensures RouteEntry(UriSegments("/"), "POST", slash) == Some(RouteInfo("POST", "/route/test/", ""))
  {
    MountedTwice("/route", "test", "");
    assert "/route" + "/" + "test" + "/" + "" == "/route/test/";
    RootTotality("POST", slash);
  }
}
