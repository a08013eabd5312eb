/**
 * The `Middleware` handler: option selection, the dispatch decision, and
 * the response written after the walk.
 *
 * Whatever the handler gets from outside is a parameter here:
 *   - whether the request carries a router context;
 *   - the request method and raw request URI;
 *   - the routes the router walk reports;
 *   - the default encoder, `json.Marshal`.
 * The response is recorded as the trace of writes the handler makes, in
 * order.
 */
module Middleware {
  import opened Paths
  import opened Scope

  newtype byte = b: int | 0 <= b < 256

  /** What a `RenderFn` returns: the encoded bytes, or an error. */
  datatype RenderResult = Rendered(raw: seq<byte>) | RenderError(message: string)

  /** `HijackOptions`: the response Content-Type and the encoder for the route list. */
  datatype HijackOptions = HijackOptions(contentType: string, render: seq<RouteInfo> -> RenderResult)

  const DefaultContentType: string := "application/json"

  /** `DefaultHijackOptions`, built around the foreign encoder `marshal`. */
  function DefaultOptions(marshal: seq<RouteInfo> -> RenderResult): (opt: HijackOptions)
    ensures opt.contentType == "application/json"
    ensures opt.render == marshal
  {
    HijackOptions(DefaultContentType, marshal)
  }

  /** The options `Middleware(options...)` works with: the first one passed, or the default. */
  function SelectOptions(options: seq<HijackOptions>, marshal: seq<RouteInfo> -> RenderResult): (opt: HijackOptions)
    ensures |options| > 0 ==> opt == options[0]
    ensures |options| == 0 ==> opt == DefaultOptions(marshal)
  {
    if |options| > 0 then options[0] else DefaultOptions(marshal)
  }

  /** Options passed after the first never make a difference. */
  lemma OnlyFirstOptionUsed(first: HijackOptions, rest: seq<HijackOptions>, marshal: seq<RouteInfo> -> RenderResult)
    ensures SelectOptions([first] + rest, marshal) == first
    ensures SelectOptions([first] + rest, marshal) == SelectOptions([first], marshal)
  {
  }

  /** One call the handler makes on its `http.ResponseWriter`. */
  datatype Write =
    | WriteHeader(status: int)
    | AddHeader(name: string, value: string)
    | WriteBody(body: seq<byte>)

  /**
   * What the handler does with a request: hand it to the next handler
   * untouched, or answer it itself with the given writes.
   */
  datatype Response = Proxied | Hijacked(writes: seq<Write>)

  const StatusOK: int := 200
  const StatusInternalServerError: int := 500

  /** The request is answered by the middleware itself. */
  predicate Hijacks(hasCtx: bool, reqMethod: string) {
    hasCtx && reqMethod == "OPTIONS"
  }

  /**
   * One request through the handler. `walked` is what the router walk of
   * the context's route tree reports.
   */
  method Serve(opt: HijackOptions, hasCtx: bool, reqMethod: string, requestURI: string, walked: seq<Walked>)
    returns (resp: Response)
    ensures resp.Proxied? <==> !hasCtx || reqMethod != "OPTIONS"
    ensures resp.Hijacked? ==>
      resp.writes == Answer(opt.contentType, opt.render(ScopeRoutes(UriSegments(requestURI), walked)))
  {
    if !Hijacks(hasCtx, reqMethod) {
      return Proxied;
    }
    var writes: seq<Write> := [];
    var u := UriSegments(requestURI);
    var routes := CollectRoutes(u, walked);
    var rendered := opt.render(routes);
    if rendered.RenderError? {
      writes := writes + [WriteHeader(StatusInternalServerError)];
      return Hijacked(writes);
    }
    writes := writes + [WriteHeader(StatusOK)];
    writes := writes + [AddHeader("Content-Type", opt.contentType)];
    writes := writes + [WriteBody(rendered.raw)];
    resp := Hijacked(writes);
  }

  /** The status code a response trace sets, if any. */
  function StatusOf(writes: seq<Write>): Option<int> {
    if writes == [] then None
    else if writes[0].WriteHeader? then Some(writes[0].status)
    else StatusOf(writes[1..])
  }

  /** The body bytes a response trace sends. */
  function BodyOf(writes: seq<Write>): seq<byte> {
    if writes == [] then []
    else (if writes[0].WriteBody? then writes[0].body else []) + BodyOf(writes[1..])
  }

  /** The values a response trace adds under header `name`. */
  function HeaderValues(writes: seq<Write>, name: string): seq<string> {
    if writes == [] then []
    else
      var here := if writes[0].AddHeader? && writes[0].name == name then [writes[0].value] else [];
      here + HeaderValues(writes[1..], name)
  }

  /** The trace the OPTIONS branch writes after rendering `rendered`. */
  function Answer(contentType: string, rendered: RenderResult): seq<Write> {
    match rendered
    case RenderError(_) => [WriteHeader(StatusInternalServerError)]
    case Rendered(raw) => [WriteHeader(StatusOK), AddHeader("Content-Type", contentType), WriteBody(raw)]
  }

  /**
   * In the trace of writes the handler makes, a failed render is status 500
   * with no body and no header.
   */
  lemma FailedAnswer(contentType: string, message: string, name: string)
    ensures StatusOf(Answer(contentType, RenderError(message))) == Some(500)
    ensures BodyOf(Answer(contentType, RenderError(message))) == []
    ensures HeaderValues(Answer(contentType, RenderError(message)), name) == []
  {
    var w := Answer(contentType, RenderError(message));
    assert w[1..] == [];
  }

  /**
   * In the trace of writes the handler makes, a successful render is
   * status 200, one Content-Type header carrying the configured value, no
   * other header, and exactly the rendered bytes as body. The status is the
   * first write.
   */
  lemma RenderedAnswer(contentType: string, raw: seq<byte>, name: string)
    ensures Answer(contentType, Rendered(raw))[0] == WriteHeader(200)
    ensures StatusOf(Answer(contentType, Rendered(raw))) == Some(200)
    ensures BodyOf(Answer(contentType, Rendered(raw))) == raw
    ensures HeaderValues(Answer(contentType, Rendered(raw)), name)
      == (if name == "Content-Type" then [contentType] else [])
  {
    var w := Answer(contentType, Rendered(raw));
    var w1 := w[1..];
    var w2 := w1[1..];
    assert w2[1..] == [];
    assert BodyOf(w2) == raw + [];
    assert BodyOf(w1) == [] + BodyOf(w2);
    assert HeaderValues(w2, name) == [];
  }
}
