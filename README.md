# describer: the self-describing OPTIONS middleware, modelled in Dafny

`describer` is a middleware for the `chi` HTTP router. It makes a router
describe itself. An `OPTIONS` request handled inside a chi router, one that
carries a route context, is answered with the list of routes at or below
its path. Each route is listed with its HTTP method and its path relative
to the requested one. Every other request, including an `OPTIONS` request
without a route context, goes on to the next handler unchanged.

The model has five modules. The first four follow the concerns of
`middleware.go`; the fifth takes its examples from `middleware_test.go`:

- `Paths` (`paths.dfy`) covers two string steps.
  - `getStringSliceFromURI` is `UriSegments`. It is built on Go's
    `strings.Split` and `strings.Join` (`Split`, `Join`).
  - Replacing the mount marker (slash, star, slash) by a single slash is
    `NormalizeMounts`. This is Go's `strings.Replace` with no limit.
- `Scope` (`scope.dfy`) models the router-walk callback and what it
  accumulates.
  - `VisitRoute` is the callback for one route. It mirrors the source: the
    length check, then the index-by-index comparison that stops at the
    first mismatch, then relativisation. Its specification is `RouteEntry`.
  - `CollectRoutes` is the whole walk, appending to `routes`. Its
    specification is `ScopeRoutes`, which is `Gather` over the walked
    `(method, pattern)` pairs.
  - `EntryTextual` is a second, purely textual reading of which routes are
    kept and how they are listed.
- `Ordering` (`ordering.dfy`) models `Routes.Len`, `Routes.Less` and
  `Routes.Swap`.
  - `strings.Compare` is `Compare`.
  - It is proved equal to an independent definition of lexicographic
    order, `LexLess`.
  - `Swap` works in place on an `array`.
- `Middleware` (`middleware.dfy`) models option selection and the handler
  itself.
  - `Serve` either passes the request on (`Proxied`) or answers it. An
    answer is a trace of `ResponseWriter` calls: status, header, body.
- `TestTree` (`test_tree.dfy`) takes the route tree that
  `middleware_test.go` registers. For a chosen set of its routes, it
  proves that the requests in that file get the expected entries.

For the request URI `"/"`, `getStringSliceFromURI` returns `[""]`:
`Split("/")` is `["", ""]`, and the code drops only the first element
(`UriSegments`, `RootLikeEmpty`). That single empty segment is the first
segment of every absolute pattern, which is why every absolute pattern
matches at the root (`RootEntry`, `RootTotality`).

Strings are sequences of Unicode scalar values. Go's byte-wise comparison
orders UTF-8 strings the same way code points do, so `Compare` uses code
point order.

## Model

| member | source | states |
|---|---|---|
| Paths.Join | middleware.go:91 | `strings.Join(segs, "/")`; a definition with no `ensures`, pinned down by `JoinSplit`, `SplitJoin` and `JoinAppend` |
| Paths.Split | middleware.go:37 | `strings.Split(s, "/")` never returns an empty list, and no segment contains `/` |
| Paths.UriSegments | middleware.go:36-44 | the result is never empty and has no `/` in a segment; for `"/"` it is `[""]`; for every other URI, joining it with `/` gives the URI back |
| Paths.JoinSplit | middleware.go:36-44 | joining the pieces of `Split(s)` with `/` reproduces `s`, for every `s` |
| Paths.SplitJoin | middleware.go:36-44 | splitting the join of slash-free segments gives the segments back (the other round trip) |
| Paths.SplitNoSlash | middleware.go:36-44 | a string without `/` splits into itself alone |
| Paths.SplitAppend | middleware.go:36-44 | splitting `a + "/" + b` is the split of `a` followed by the split of `b` |
| Paths.JoinAppend | middleware.go:91 | joining two non-empty segment lists is joining each and putting `/` between them |
| Paths.RootLikeEmpty | middleware.go:36-44 | the request URIs `"/"` and `""` both give `[""]` |
| Paths.SingleEmptySegment | middleware.go:36-44 | the segments are `[""]` exactly when the URI is `""` or `"/"` |
| Paths.NormalizeMounts | middleware.go:74 | `strings.Replace(r, "/*/", "/", -1)`; a definition with no `ensures`, pinned down by `NormalizeShape`, `NormalizeWithoutMarker`, `NormalizeStarFreePrefix`, `MountTransparency`, `NormalizeNonOverlapping` and `OverlappingMarkers` |
| Paths.NormalizeShape | middleware.go:74 | replacing mount markers never lengthens a pattern, maps only `""` to `""` and keeps the first character |
| Paths.NormalizeWithoutMarker | middleware.go:74 | a pattern with no marker is unchanged |
| Paths.NormalizeStarFreePrefix | middleware.go:74 | a prefix without `*`, followed by text that does not start with `*`, is copied unchanged in front of the normalised rest |
| Paths.MountedPattern | middleware.go:74 | for a prefix `p` without `*` and a rest `q` that does not start with `*`, the marker in `p` + (slash, star, slash) + `q` becomes one slash, giving `p + "/"` followed by the normalised `q` |
| Paths.DirectPattern | middleware.go:74 | under the same two conditions (`p` without `*`, `q` not starting with `*`), `p + "/" + q` normalises to `p + "/"` followed by the normalised `q` |
| Paths.MountTransparency | middleware.go:74 | for a prefix without `*` and a rest that does not start with `*`, a route reached through one mount marker has the same normalised text and the same segments as its directly registered form |
| Paths.NormalizeNonOverlapping | middleware.go:74 | replacement is non-overlapping: two markers that share a slash leave one marker |
| Paths.OverlappingMarkers | middleware.go:74 | for a prefix without `*` and a rest that does not start with `*`, two markers that share a slash leave a literal `*` segment, so the normalised pattern differs from the directly registered `p + "/" + q` |
| Scope.RouteEntry | middleware.go:74-92 | the Walk callback for one route: normalise, length check, segment comparison, relativise; a definition with no `ensures`, pinned down by `VisitRoute`, `EntryFields`, `EntryTextual` and `RootEntry` |
| Scope.ScopeRoutes | middleware.go:70-94 | the `routes` slice after the walk; a definition with no `ensures`, pinned down by `CollectRoutes`, `GatherAppend`, `ScopeRoutesMembers` and `RootDescribesAll` |
| Scope.VisitRoute | middleware.go:73-93 | the callback keeps a route exactly when the request segments are a prefix of the route's segments; its result is `RouteEntry`, with the method copied, path `"/"` joined with the remaining segments, and an empty description |
| Scope.CollectRoutes | middleware.go:70-94 | walking the routes and appending every kept entry gives `ScopeRoutes` of the request segments and the walk |
| Scope.ScopeRoutesStep | middleware.go:89-92 | each reported route appends its entry, if kept, at the end |
| Scope.Gather | middleware.go:70-94 | the walk never produces more entries than routes walked |
| Scope.GatherAppend | middleware.go:70-94 | walk order is kept: the list for a longer walk extends the list for its first part |
| Scope.GatheredFrom | middleware.go:89-92 | nothing is invented: every listed entry is the callback's result for some walked route |
| Scope.GatheredKept | middleware.go:89-92 | nothing is lost: every kept walked route is listed |
| Scope.GatheredAll | middleware.go:89-92 | when every walked route is kept, the list is exactly their entries, in walk order |
| Scope.ScopeRoutesAppend | middleware.go:70-94 | the same walk-order property for the routes listed for a request |
| Scope.ScopeRoutesSingle | middleware.go:89-92 | one walked route contributes its entry, or nothing when it is dropped |
| Scope.DuplicatesKept | middleware.go:89-92 | a route walked twice is listed twice: duplicates are not removed |
| Scope.ScopeRoutesMembers | middleware.go:70-94 | an entry is listed if and only if some walked route is kept and yields it |
| Scope.ListedFields | middleware.go:89-92 | every listed entry has an empty description and the method of some walked route |
| Scope.EntryFields | middleware.go:89-92 | a kept route's entry copies its method unchanged and leaves the description empty |
| Scope.EntryTextual | middleware.go:74-92 | for every request URI other than `"/"`, the segment test and relativisation agree with a textual rule. A route is kept exactly when its normalised pattern equals the URI, and is then listed as `"/"`, or extends the URI past a `/`, and is then listed as the text after the URI. |
| Scope.InScopeIsBelow | middleware.go:75-88 | for a URI and a normalised pattern that are both other than `"/"`, a segment-wise prefix match implies the pattern text equals the URI or extends it past a slash |
| Scope.ExactMatch | middleware.go:89-92 | a route whose normalised pattern is the request URI is listed as `"/"` |
| Scope.DescendantListed | middleware.go:89-92 | for a request URI other than `"/"`, a route below the request URI is listed as the remaining text, including a trailing slash |
| Scope.TextualSiblingDropped | middleware.go:75-88 | for a request URI other than `"/"`, a route that only shares a textual prefix with the URI (the next character is not `/`) is dropped |
| Scope.RootEntry | middleware.go:71-92 | at `"/"`, a route is kept exactly when its normalised pattern is empty (listed as `"/"`) or starts with `/` (listed unchanged) |
| Scope.RootTotality | middleware.go:71-92 | at `"/"`, every pattern beginning with `/` is kept, listed as its normalised pattern |
| Scope.RootDescribesAll | middleware.go:70-94 | at `"/"`, a walk of absolute patterns lists every walked route, in order, with its method and normalised pattern |
| Ordering.Compare | middleware.go:123 | `strings.Compare` returns -1, 0 or 1, and 0 exactly when the strings are equal |
| Ordering.CompareLess | middleware.go:123 | `Compare(a, b) == -1` holds exactly when `a` is lexicographically smaller than `b` under the reference definition `LexLess` |
| Ordering.CompareAntisymmetric | middleware.go:123 | swapping the arguments negates the comparison |
| Ordering.CompareTransitive | middleware.go:123 | "sorts before" is transitive |
| Ordering.LexLessIrreflexive | middleware.go:122-124 | no path is smaller than itself |
| Ordering.LexLessAsymmetric | middleware.go:122-124 | of two paths at most one is smaller |
| Ordering.LexLessTransitive | middleware.go:122-124 | lexicographic order is transitive |
| Ordering.LexLessTotal | middleware.go:122-124 | two different paths are always ordered one way or the other |
| Ordering.Len | middleware.go:118-120 | the length of the route list |
| Ordering.Less | middleware.go:122-124 | route `i` is less than route `j` exactly when its path is lexicographically smaller |
| Ordering.LessIrreflexive | middleware.go:122-124 | `Less(i, i)` never holds |
| Ordering.LessAsymmetric | middleware.go:122-124 | `Less(i, j)` excludes `Less(j, i)` |
| Ordering.LessTransitive | middleware.go:122-124 | `Less` is transitive |
| Ordering.LessTotal | middleware.go:122-124 | two routes are comparable under `Less` exactly when their paths differ |
| Ordering.Swap | middleware.go:126-128 | routes `i` and `j` are exchanged in place, every other index is unchanged and the multiset of routes is preserved |
| Middleware.DefaultOptions | middleware.go:17-20 | the default options have Content-Type `application/json` and the JSON encoder |
| Middleware.SelectOptions | middleware.go:56-60 | the first options passed are used; with none, the default |
| Middleware.OnlyFirstOptionUsed | middleware.go:53-60 | options after the first never make a difference |
| Middleware.Hijacks | middleware.go:64 | the test that decides whether the handler answers: a route context and the method exactly `OPTIONS`; a definition with no `ensures`, tied to the source by the first `ensures` of `Serve` |
| Middleware.Serve | middleware.go:62-103 | the request goes on to the next handler exactly when there is no route context or the method is not exactly `OPTIONS`. Otherwise the handler writes `Answer` for the rendering of the routes in scope of the request URI. |
| Middleware.Answer | middleware.go:95-103 | the writes after rendering; a definition with no `ensures`, pinned down by `FailedAnswer` and `RenderedAnswer` |
| Middleware.FailedAnswer | middleware.go:95-100 | a failed render gives status 500, no body and no headers |
| Middleware.RenderedAnswer | middleware.go:101-103 | a successful render gives status 200 as the first write, a single Content-Type header with the configured value, and exactly the rendered bytes as body |
| TestTree.MountedTwice | middleware_test.go:113-125 | a route two sub-routers deep loses both mount markers |
| TestTree.DescribeInner | middleware_test.go:37-40 | at `/route/test2/inner`, the mounted `GET inner` route is listed as `/` |
| TestTree.DescribeTest2 | middleware_test.go:41-44 | at `/route/test2`, it is listed as `/inner` |
| TestTree.KeepHello | middleware_test.go:45-51 | at `/route/test`, `GET /hello/{id}` is listed as `/hello/{id}` |
| TestTree.KeepTrailingSlash | middleware_test.go:45-51 | at `/route/test`, `POST /` is listed as `/` |
| TestTree.DropSibling | middleware_test.go:45-51 | at `/route/test`, the route under `/route/test2` is dropped despite the shared text |
| TestTree.DescribeTest | middleware_test.go:45-51 | at `/route/test`, the walk of those three routes lists exactly `GET /hello/{id}` and `POST /`, in walk order |
| TestTree.DescribeHello | middleware_test.go:52-55 | at `/route/test/hello`, the route is listed as `/{id}` |
| TestTree.DropTopLevel | middleware_test.go:56-65 | at `/route`, the top-level `/get` route is not listed |
| TestTree.KeepRoutedGet | middleware_test.go:56-65 | at `/route`, `/route/get` is listed as `/get` |
| TestTree.KeepRoutedSlash | middleware_test.go:56-65 | at `/route`, `POST /route/test/` is listed as `/test/`, keeping its trailing slash |
| TestTree.DescribeRoot | middleware_test.go:66-78 | at `/`, `POST /route/test/` is listed with its whole normalised pattern |

## Left out

- HTTP transport is not modelled: `http.ResponseWriter`, `http.Handler` and serving the request.
  - The response is the ordered trace of `WriteHeader`, `Header().Add` and `Write` calls.
  - `net/http` ignores a header that is added after `WriteHeader`. The trace records the calls the handler makes, not what reaches the client.
  - Passing the request on is `Proxied`. The next handler is not modelled.
- `chi.RouteContext` and `chi.Walk` are foreign calls. The model takes their results as inputs.
  - Whether a route context exists is the boolean `hasCtx`.
  - The walk is the sequence of `(method, pattern)` pairs the router reports, in the order it reports them.
  - The handler and middleware arguments of the Walk callback are not used by the code, so they are not modelled.
  - The callback's `error` result is always `nil`, so it is not modelled.
- Middleware.DefaultOptions: `DefaultHijackOptions` is an exported package variable (middleware.go:17), read when `Middleware()` is called (middleware.go:57). Callers may reassign it; the model fixes it to its initial value, `application/json` with the JSON encoder.
- `json.Marshal` and the JSON field tags are not modelled. A `RenderFn` is an arbitrary function from the route list to bytes or an error; the default encoder is the parameter `marshal`.
- `logEntry.Panic` and `middleware.GetLogEntry` are not modelled.
  - `RenderError` leads to the trace `[WriteHeader(500)]`. That trace is the calls the handler makes up to the `logEntry.Panic` call at middleware.go:98.
  - What that call then does is not modelled. chi's `GetLogEntry` is not part of this model. If it returns nil when no request logger is installed, as in the server of middleware_test.go:104-105, the call panics after the 500 has been written.
- The goroutine server, timeouts and HTTP client in `middleware_test.go` are not modelled.
  - Only the test's expected values are used, as examples in `TestTree`.
  - The examples fix their URIs and patterns by `requires`. They cover the routes named there. They do not cover the full listings: 8 routes at `/route` (middleware_test.go:58-63) and all 13 registered routes at `/` (middleware_test.go:68-77).
  - The router's rendering of patterns with the mount marker is taken from how chi reports them.
- `sort.Sort` is not modelled. Only `Len`, `Less` and `Swap` belong to this code.
- `Len` is the slice length. Its contract can only say that.
- Strings are sequences of Unicode scalar values, but Go strings are byte strings. A `RequestURI` or pattern that holds bytes that are not valid UTF-8 cannot be represented, so the model says nothing about such input.
- Mount transparency holds only where no two markers share a slash (`MountTransparency`, `OverlappingMarkers`).
  - `strings.Replace` at middleware.go:74 is non-overlapping. In `/a/*/*/x` it replaces only the first marker, giving `/a/*/x`, while `/a/*/x` gives `/a/x`.
  - At `/a`, the first route is then listed as `/*/x` rather than `/x`.
  - Whether chi reports such a pattern, for a sub-router mounted at `/` inside a mounted router, depends on chi's own code, which is not part of this model.
- Query strings and percent-decoding are not modelled. The code splits the raw `RequestURI` and does neither.
- Ordering.Less: Go panics on an index out of range; the model requires both indices in range instead.
- Ordering.Swap: Go panics on an index out of range; the model requires both indices in range instead.
