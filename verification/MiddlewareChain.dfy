/**
 The middleware chain (src/middleware/mod.rs) with the shipped middlewares, and the loop that
 builds it from a configuration table (src/configuration.rs).
 */
module MiddlewareChains {
  import opened Wrappers
  import opened Negotiation
  import opened Text

  // ---------------------------------------------------------------- messages

  datatype Request = Request(acceptEncoding: Option<string>, contentLength: Option<int>, rest: string)

  /** A content coding: one the program applies itself, or a foreign one set by a backend. */
  datatype Coding = Own(encoding: Encoding) | Foreign(name: string)

  /** A body on the wire: its payload and the codings it went through, first applied first. */
  datatype Body = Body(payload: string, codings: seq<Coding>)

  datatype Response = Response(
    status: nat,
    contentEncoding: Option<seq<Coding>>,
    contentLength: Option<nat>,
    setCookies: seq<string>,
    otherHeaders: map<string, string>,
    body: Body)

  /** A response the program makes up itself: no content headers, body as is. */
  function Answer(status: nat, headers: map<string, string>, text: string): Response {
    Response(status, None, None, [], headers, Body(text, []))
  }

  /** The content headers tell the truth about the body; `wire` is the length of a coded body. */
  predicate Consistent(wire: Body -> nat, r: Response) {
    && r.body.codings == (if r.contentEncoding.Some? then r.contentEncoding.value else [])
    && (r.contentLength.Some? ==> r.contentLength.value == wire(r.body))
  }

  // ---------------------------------------------------------------- middlewares

  datatype Verdict = Pass(request: Request) | Early(response: Response)

  /**
   The shipped middlewares, and any other that implements only `modify_request` and
   `modify_response`. What the clock, the LDAP server or the file system decide is a parameter.
   */
  datatype Middleware =
    | RateLimiter(admits: Request -> bool)
    | Authentication(accepts: Request -> bool)
    | HttpsRedirector(plainHttp: bool, redirect: Request -> (nat, map<string, string>, string))
    | MaxBodySize(limit: int)
    | Compression
    | CustomErrorPages(errors: seq<nat>, page: nat -> string)
    | Custom(modifyRequest: Request -> Verdict, modifyResponse: Response -> Response)

  const UNAUTHORIZED := Answer(
    401, map["www-authenticate" := "Basic realm=\"Another Rust Load Balancer requires authentication\""], "")

  function ModifyRequest(m: Middleware, request: Request): Verdict {
    match m
    case RateLimiter(admits) =>
      if admits(request) then Pass(request) else Early(Answer(429, map[], "429 - Too Many Requests"))
    case Authentication(accepts) =>
      if accepts(request) then Pass(request) else Early(UNAUTHORIZED)
    case HttpsRedirector(plainHttp, redirect) =>
      if plainHttp then
        var (status, headers, text) := redirect(request);
        Early(Answer(status, headers, text))
      else Pass(request)
    case MaxBodySize(limit) =>
      if request.contentLength.Some? && request.contentLength.value > limit
      then Early(Answer(413, map[], "")) else Pass(request)
    case Compression => Pass(request)
    case CustomErrorPages(_, _) => Pass(request)
    case Custom(f, _) => f(request)
  }

  /** The page is the file's contents, or the canonical line where there is no file. */
  function ReplaceResponse(page: nat -> string, r: Response): Response {
    r.(contentLength := None, contentEncoding := None, body := Body(page(r.status), []))
  }

  function ModifyResponse(m: Middleware, r: Response): Response {
    match m
    case CustomErrorPages(errors, page) => if r.status in errors then ReplaceResponse(page, r) else r
    case Custom(_, g) => g(r)
    case _ => r
  }

  function Compress(r: Response, e: Encoding): Response {
    r.(body := Body(r.body.payload, r.body.codings + [Own(e)]),
       contentEncoding := Some([Own(e)]), contentLength := None)
  }

  // ---------------------------------------------------------------- the recursion

  datatype Chain = Empty | Entry(middleware: Middleware, chain: Chain)

  /** The response handed back, and the requests sent to the backend on the way. */
  datatype Exchange = Exchange(response: Response, sent: seq<Request>)

  /** The backend answers, or the client library fails and a bad gateway is answered. */
  type Backend = Request -> Option<Response>

  function Contact(backend: Backend, request: Request): Response {
    var answer := backend(request);
    if answer.Some? then answer.value else Answer(502, map[], "")
  }

  /** `MiddlewareChain::forward_request` */
  function ForwardChain(backend: Backend, chain: Chain, request: Request): Exchange
    decreases chain, 0
  {
    match chain
    case Empty => Exchange(Contact(backend, request), [request])
    case Entry(m, rest) => ForwardRequest(backend, m, rest, request)
  }

  /** `Middleware::forward_request`: its own for compression, the default one for all others. */
  function ForwardRequest(backend: Backend, m: Middleware, chain: Chain, request: Request): Exchange
    decreases chain, 1
  {
    if m.Compression? then
      var encoding := PreferredEncoding(request.acceptEncoding);
      var inner := ForwardChain(backend, chain, request);
      if encoding.Some? && inner.response.contentEncoding.None?
      then inner.(response := Compress(inner.response, encoding.value)) else inner
    else
      match ModifyRequest(m, request)
      case Pass(request') =>
        var inner := ForwardChain(backend, chain, request');
        inner.(response := ModifyResponse(m, inner.response))
      case Early(response) => Exchange(response, [])
  }

  /**
   A middleware of one's own: its answer is final, else the rest of the chain gets what it made of
   the request and the client gets what it makes of the response.
   */
  lemma OwnMiddleware(
    backend: Backend, f: Request -> Verdict, g: Response -> Response, chain: Chain, request: Request)
    ensures var out := ForwardRequest(backend, Custom(f, g), chain, request);
      if f(request).Early? then out == Exchange(f(request).response, [])
      else
        var inner := ForwardChain(backend, chain, f(request).request);
        out == Exchange(g(inner.response), inner.sent)
  {
  }

  // ---------------------------------------------------------------- two passes

  function ToSeq(chain: Chain): seq<Middleware> {
    match chain
    case Empty => []
    case Entry(m, rest) => [m] + ToSeq(rest)
  }

  /** The way down: the request as handed to each depth reached, and the early answer, if any. */
  datatype Descent = Descent(seen: seq<Request>, early: Option<Response>)

  function Descend(ms: seq<Middleware>, request: Request): (d: Descent)
    ensures 1 <= |d.seen| <= |ms| + 1
    ensures d.early.None? <==> |d.seen| == |ms| + 1
  {
    if ms == [] then Descent([request], None)
    else
      match ModifyRequest(ms[0], request)
      case Early(response) => Descent([request], Some(response))
      case Pass(request') =>
        var below := Descend(ms[1..], request');
        Descent([request] + below.seen, below.early)
  }

  /** What a middleware does to a response, given the encoding preferred by the request it was handed. */
  function Leave(m: Middleware, preferred: Option<Encoding>, r: Response): Response {
    if m.Compression? then
      if preferred.Some? && r.contentEncoding.None? then Compress(r, preferred.value) else r
    else ModifyResponse(m, r)
  }

  /** The way up: middlewares `n-1` down to `0` get the response. */
  function Ascend(ms: seq<Middleware>, seen: seq<Request>, n: nat, r: Response): Response
    requires n <= |ms| && n <= |seen|
  {
    if n == 0 then r else Ascend(ms, seen, n - 1, Leave(ms[n - 1], PreferredEncoding(seen[n - 1].acceptEncoding), r))
  }

  /** Where the response comes from: the first middleware to answer early, else the backend. */
  function Origin(backend: Backend, d: Descent): Response
    requires d.seen != []
  {
    if d.early.Some? then d.early.value else Contact(backend, d.seen[|d.seen| - 1])
  }

  function TwoPass(backend: Backend, ms: seq<Middleware>, request: Request): Exchange {
    var d := Descend(ms, request);
    var depth := |d.seen| - 1;
    Exchange(Ascend(ms, d.seen, depth, Origin(backend, d)), if d.early.None? then [d.seen[depth]] else [])
  }

  lemma {:induction false} AscendShift(ms: seq<Middleware>, seen: seq<Request>, n: nat, r: Response)
    requires 0 < n <= |ms| && n <= |seen|
    ensures Ascend(ms, seen, n, r) ==
      Leave(ms[0], PreferredEncoding(seen[0].acceptEncoding), Ascend(ms[1..], seen[1..], n - 1, r))
  {
    if n > 1 {
      AscendShift(ms, seen, n - 1, Leave(ms[n - 1], PreferredEncoding(seen[n - 1].acceptEncoding), r));
    }
  }

  /**
   The recursion is a walk down and a walk up: requests pass in order until one middleware at
   depth `i` answers, responses pass from `i - 1` up to the first, and the backend is contacted
   once if nobody answered early and not at all otherwise.
   */
  lemma {:induction false} ChainIsTwoPass(backend: Backend, chain: Chain, request: Request)
    ensures ForwardChain(backend, chain, request) == TwoPass(backend, ToSeq(chain), request)
    decreases chain
  {
    match chain
    case Empty =>
    case Entry(m, rest) =>
      var ms := ToSeq(chain);
      assert ms[1..] == ToSeq(rest);
      match ModifyRequest(m, request) {
        case Early(_) =>
        case Pass(request') =>
          ChainIsTwoPass(backend, rest, request');
          OuterLayer(backend, ms, request, request');
      }
  }

  /** Two passes over a chain are two passes over its tail, wrapped by its first middleware. */
  lemma OuterLayer(backend: Backend, ms: seq<Middleware>, request: Request, request': Request)
    requires ms != [] && ModifyRequest(ms[0], request) == Pass(request')
    ensures var below := TwoPass(backend, ms[1..], request');
      TwoPass(backend, ms, request) == Exchange(
        Leave(ms[0], PreferredEncoding(request.acceptEncoding), below.response), below.sent)
  {
    var d, below := Descend(ms, request), Descend(ms[1..], request');
    assert d.seen[1..] == below.seen;
    AscendShift(ms, d.seen, |d.seen| - 1, Origin(backend, d));
  }

  // ---------------------------------------------------------------- content of shipped chains

  predicate Shipped(ms: seq<Middleware>) {
    forall i :: 0 <= i < |ms| ==> !ms[i].Custom?
  }

  /** Shipped middlewares never change the request. */
  lemma {:induction false} ShippedDescent(ms: seq<Middleware>, request: Request)
    requires Shipped(ms)
    ensures var d := Descend(ms, request); forall i :: 0 <= i < |d.seen| ==> d.seen[i] == request
  {
    if ms != [] && ModifyRequest(ms[0], request).Pass? {
      assert ModifyRequest(ms[0], request) == Pass(request);
      ShippedDescent(ms[1..], request);
      assert Descend(ms, request).seen == [request] + Descend(ms[1..], request).seen;
    }
  }

  /** Through a shipped chain the backend gets the client's request, once, or nothing. */
  lemma SentAtMostOnce(backend: Backend, chain: Chain, request: Request)
    requires Shipped(ToSeq(chain))
    ensures ForwardChain(backend, chain, request).sent in {[], [request]}
  {
    ChainIsTwoPass(backend, chain, request);
    WalkSends(backend, ToSeq(chain), request);
  }

  lemma WalkSends(backend: Backend, ms: seq<Middleware>, request: Request)
    requires Shipped(ms)
    ensures TwoPass(backend, ms, request).sent in {[], [request]}
  {
    ShippedDescent(ms, request);
    var depth := |Descend(ms, request).seen| - 1;
    assert Descend(ms, request).seen[depth] == request;
  }

  /** Shipped middlewares answer early with consistent content. */
  lemma {:induction false} EarlyConsistent(wire: Body -> nat, ms: seq<Middleware>, request: Request)
    requires Shipped(ms)
    ensures var early := Descend(ms, request).early; early.Some? ==> Consistent(wire, early.value)
  {
    if ms != [] && ModifyRequest(ms[0], request).Pass? {
      assert ModifyRequest(ms[0], request) == Pass(request);
      EarlyConsistent(wire, ms[1..], request);
    }
  }

  /** Whether a shipped middleware lets a request through. */
  predicate LetsThrough(m: Middleware, request: Request) {
    match m
    case RateLimiter(admits) => admits(request)
    case Authentication(accepts) => accepts(request)
    case HttpsRedirector(plainHttp, _) => !plainHttp
    case MaxBodySize(limit) => request.contentLength.Some? ==> request.contentLength.value <= limit
    case _ => true
  }

  /** Status, headers and text a shipped middleware refuses with. */
  function Refusal(m: Middleware, request: Request): (nat, map<string, string>, string) {
    match m
    case RateLimiter(_) => (429, map[], "429 - Too Many Requests")
    case Authentication(_) =>
      (401, map["www-authenticate" := "Basic realm=\"Another Rust Load Balancer requires authentication\""], "")
    case HttpsRedirector(_, redirect) => redirect(request)
    case MaxBodySize(_) => (413, map[], "")
    case _ => (0, map[], "")
  }

  lemma {:induction false} DescentStopsAt(ms: seq<Middleware>, request: Request, i: nat)
    requires Shipped(ms) && i <= |ms| && forall j :: 0 <= j < i ==> LetsThrough(ms[j], request)
    requires i < |ms| ==> !LetsThrough(ms[i], request)
    ensures var d := Descend(ms, request);
      && |d.seen| == i + 1 && d.seen[i] == request
      && (i < |ms| ==>
            var (status, headers, text) := Refusal(ms[i], request);
            d.early == Some(Response(status, None, None, [], headers, Body(text, []))))
  {
    if i > 0 {
      DescentStopsAt(ms[1..], request, i - 1);
    }
  }

  /**
   The first shipped middleware that refuses decides: the backend is not contacted and the client
   sees that middleware's status and headers. If all let the request through, the backend gets it
   unchanged, once; the client sees its status, headers and cookies, and 502 if it does not answer.
   */
  lemma FirstRefusalDecides(backend: Backend, chain: Chain, request: Request, i: nat)
    requires Shipped(ToSeq(chain)) && i <= |ToSeq(chain)|
    requires forall j :: 0 <= j < i ==> LetsThrough(ToSeq(chain)[j], request)
    requires i < |ToSeq(chain)| ==> !LetsThrough(ToSeq(chain)[i], request)
    ensures var out := ForwardChain(backend, chain, request);
      if i < |ToSeq(chain)| then
        var (status, headers, _) := Refusal(ToSeq(chain)[i], request);
        && out.sent == [] && out.response.setCookies == []
        && out.response.status == status && out.response.otherHeaders == headers
      else
        && out.sent == [request]
        && match backend(request)
           case None =>
             out.response.status == 502 && out.response.otherHeaders == map[] && out.response.setCookies == []
           case Some(r) =>
             && out.response.status == r.status && out.response.otherHeaders == r.otherHeaders
             && out.response.setCookies == r.setCookies
  {
    ChainIsTwoPass(backend, chain, request);
    DescentStopsAt(ToSeq(chain), request, i);
    OriginKept(backend, chain, request);
  }

  /** Where the payload comes from, unless an error page replaces it. */
  lemma PayloadOf(backend: Backend, chain: Chain, request: Request, i: nat)
    requires Shipped(ToSeq(chain)) && i <= |ToSeq(chain)|
    requires forall j :: 0 <= j < i ==> LetsThrough(ToSeq(chain)[j], request)
    requires i < |ToSeq(chain)| ==> !LetsThrough(ToSeq(chain)[i], request)
    ensures var ms, out := ToSeq(chain), ForwardChain(backend, chain, request).response;
      !Replaced(ms, i, out.status) ==>
        out.body.payload ==
          if i < |ms| then Refusal(ms[i], request).2
          else if backend(request).Some? then backend(request).value.body.payload else ""
  {
    var ms := ToSeq(chain);
    DescentStopsAt(ms, request, i);
    ShippedChain(backend, chain, request);
    OriginKept(backend, chain, request);
    var d, preferred := Descend(ms, request), PreferredEncoding(request.acceptEncoding);
    var origin := Origin(backend, d);
    if !Replaced(ms, i, origin.status) { RisePayload(ms, preferred, i, origin); }
  }

  /** The way up when every middleware was handed the same request. */
  function Rise(ms: seq<Middleware>, preferred: Option<Encoding>, n: nat, r: Response): Response
    requires n <= |ms|
  {
    if n == 0 then r else Rise(ms, preferred, n - 1, Leave(ms[n - 1], preferred, r))
  }

  lemma {:induction false} AscendIsRise(ms: seq<Middleware>, seen: seq<Request>, request: Request, n: nat, r: Response)
    requires n <= |ms| && n <= |seen| && forall i :: 0 <= i < n ==> seen[i] == request
    ensures Ascend(ms, seen, n, r) == Rise(ms, PreferredEncoding(request.acceptEncoding), n, r)
  {
    if n > 0 {
      var preferred := PreferredEncoding(request.acceptEncoding);
      AscendIsRise(ms, seen, request, n - 1, Leave(ms[n - 1], preferred, r));
    }
  }

  /** A shipped chain is a rise from the response's origin. */
  lemma ShippedChain(backend: Backend, chain: Chain, request: Request)
    requires Shipped(ToSeq(chain))
    ensures var d := Descend(ToSeq(chain), request);
      ForwardChain(backend, chain, request).response ==
      Rise(ToSeq(chain), PreferredEncoding(request.acceptEncoding), |d.seen| - 1, Origin(backend, d))
  {
    var ms := ToSeq(chain);
    var d := Descend(ms, request);
    assert forall i :: 0 <= i < |d.seen| ==> d.seen[i] == request by { ShippedDescent(ms, request); }
    AscendIsRise(ms, d.seen, request, |d.seen| - 1, Origin(backend, d));
    ChainIsTwoPass(backend, chain, request);
  }

  lemma {:induction false} RiseConsistent(
    wire: Body -> nat, ms: seq<Middleware>, preferred: Option<Encoding>, n: nat, r: Response)
    requires Shipped(ms) && n <= |ms| && Consistent(wire, r)
    ensures Consistent(wire, Rise(ms, preferred, n, r))
  {
    if n > 0 {
      RiseConsistent(wire, ms, preferred, n - 1, Leave(ms[n - 1], preferred, r));
    }
  }

  /**
   Content consistency through every chain of shipped middlewares, of any length and order.
   */
  lemma ContentConsistent(wire: Body -> nat, backend: Backend, chain: Chain, request: Request)
    requires Shipped(ToSeq(chain)) && Consistent(wire, Contact(backend, request))
    ensures Consistent(wire, ForwardChain(backend, chain, request).response)
  {
    var ms := ToSeq(chain);
    var d := Descend(ms, request);
    ShippedChain(backend, chain, request);
    OriginConsistent(wire, backend, ms, request);
    RiseConsistent(wire, ms, PreferredEncoding(request.acceptEncoding), |d.seen| - 1, Origin(backend, d));
  }

  predicate Replaces(m: Middleware, status: nat) {
    m.CustomErrorPages? && status in m.errors
  }

  /** Some error page above depth `n` replaces responses of this status. */
  ghost predicate Replaced(ms: seq<Middleware>, n: nat, status: nat)
    requires n <= |ms|
  {
    exists q :: 0 <= q < n && Replaces(ms[q], status)
  }

  /** Some compression above depth `n` is not undone by an error page above it. */
  ghost predicate Compressed(ms: seq<Middleware>, n: nat, status: nat)
    requires n <= |ms|
  {
    exists c :: 0 <= c < n && ms[c].Compression? && !Replaced(ms, c, status)
  }

  lemma OneMoreLayer(ms: seq<Middleware>, n: nat, status: nat)
    requires 0 < n <= |ms|
    ensures Replaced(ms, n, status) <==> Replaced(ms, n - 1, status) || Replaces(ms[n - 1], status)
    ensures Compressed(ms, n, status) <==>
      Compressed(ms, n - 1, status) || (ms[n - 1].Compression? && !Replaced(ms, n - 1, status))
  {
  }

  lemma {:induction false} RiseKeeps(ms: seq<Middleware>, preferred: Option<Encoding>, n: nat, r: Response)
    requires Shipped(ms) && n <= |ms|
    ensures var out := Rise(ms, preferred, n, r);
      out.status == r.status && out.setCookies == r.setCookies && out.otherHeaders == r.otherHeaders
  {
    if n > 0 {
      RiseKeeps(ms, preferred, n - 1, Leave(ms[n - 1], preferred, r));
    }
  }

  /** Status, cookies and other headers survive every shipped chain. */
  lemma OriginKept(backend: Backend, chain: Chain, request: Request)
    requires Shipped(ToSeq(chain))
    ensures var origin := Origin(backend, Descend(ToSeq(chain), request));
      var out := ForwardChain(backend, chain, request).response;
      out.status == origin.status && out.setCookies == origin.setCookies && out.otherHeaders == origin.otherHeaders
  {
    var ms := ToSeq(chain);
    var d := Descend(ms, request);
    var origin, n, preferred := Origin(backend, d), |d.seen| - 1, PreferredEncoding(request.acceptEncoding);
    var out := Rise(ms, preferred, n, origin);
    assert out.status == origin.status && out.setCookies == origin.setCookies
        && out.otherHeaders == origin.otherHeaders by { RiseKeeps(ms, preferred, n, origin); }
    assert ForwardChain(backend, chain, request).response == out by { ShippedChain(backend, chain, request); }
  }

  /** The coding of the final response, for every coding it may start with. */
  function FinalCoding(replaced: bool, compressed: bool, preferred: Option<Encoding>, start: Option<seq<Coding>>)
    : Option<seq<Coding>>
  {
    if start.Some? && !replaced then start
    else if preferred.Some? && compressed then Some([Own(preferred.value)])
    else None
  }

  lemma {:induction false} RiseCoding(ms: seq<Middleware>, preferred: Option<Encoding>, n: nat, r: Response)
    requires Shipped(ms) && n <= |ms|
    ensures Rise(ms, preferred, n, r).contentEncoding ==
      FinalCoding(Replaced(ms, n, r.status), Compressed(ms, n, r.status), preferred, r.contentEncoding)
  {
    if n > 0 {
      RiseCoding(ms, preferred, n - 1, Leave(ms[n - 1], preferred, r));
      OneMoreLayer(ms, n, r.status);
    }
  }

  lemma {:induction false} RisePayload(ms: seq<Middleware>, preferred: Option<Encoding>, n: nat, r: Response)
    requires Shipped(ms) && n <= |ms| && !Replaced(ms, n, r.status)
    ensures Rise(ms, preferred, n, r).body.payload == r.body.payload
  {
    if n > 0 {
      OneMoreLayer(ms, n, r.status);
      RisePayload(ms, preferred, n - 1, Leave(ms[n - 1], preferred, r));
    }
  }

  /** Of several replacing error pages the outermost one is shown. */
  lemma {:induction false} RisePage(ms: seq<Middleware>, preferred: Option<Encoding>, n: nat, r: Response, q: nat)
    requires Shipped(ms) && q < n <= |ms| && Replaces(ms[q], r.status) && !Replaced(ms, q, r.status)
    ensures Rise(ms, preferred, n, r).body.payload == ms[q].page(r.status)
  {
    var r' := Leave(ms[n - 1], preferred, r);
    if q == n - 1 {
      RisePayload(ms, preferred, q, r');
    } else {
      RisePage(ms, preferred, n - 1, r', q);
    }
  }

  /**
   What the client receives through a chain of shipped middlewares. Status and other headers are
   those of the response's origin. A coding the origin set stays unless an error page replaced
   the response; otherwise the coding is the client's preferred one exactly if some compression
   lies on the way with no replacing error page above it, applied once to the plain payload. The
   payload is that of the origin, or of the outermost replacing error page.
   */
  lemma ClientReceives(wire: Body -> nat, backend: Backend, chain: Chain, request: Request)
    requires Shipped(ToSeq(chain)) && Consistent(wire, Contact(backend, request))
    ensures var ms := ToSeq(chain);
      var d := Descend(ms, request);
      var depth := |d.seen| - 1;
      var origin := Origin(backend, d);
      var out := ForwardChain(backend, chain, request).response;
      var coding := FinalCoding(
        Replaced(ms, depth, origin.status), Compressed(ms, depth, origin.status),
        PreferredEncoding(request.acceptEncoding), origin.contentEncoding);
      && out.status == origin.status && out.setCookies == origin.setCookies
      && out.otherHeaders == origin.otherHeaders
      && out.contentEncoding == coding
      && out.body.codings == (if coding.Some? then coding.value else [])
      && (!Replaced(ms, depth, origin.status) ==> out.body.payload == origin.body.payload)
      && (forall q :: 0 <= q < depth && Replaces(ms[q], origin.status) && !Replaced(ms, q, origin.status) ==>
            out.body.payload == ms[q].page(origin.status))
  {
    var ms := ToSeq(chain);
    var d := Descend(ms, request);
    var origin, depth := Origin(backend, d), |d.seen| - 1;
    var preferred := PreferredEncoding(request.acceptEncoding);
    ShippedChain(backend, chain, request);
    ContentConsistent(wire, backend, chain, request);
    RiseKeeps(ms, preferred, depth, origin);
    RiseCoding(ms, preferred, depth, origin);
    if !Replaced(ms, depth, origin.status) { RisePayload(ms, preferred, depth, origin); }
    forall q | 0 <= q < depth && Replaces(ms[q], origin.status) && !Replaced(ms, q, origin.status)
      ensures Rise(ms, preferred, depth, origin).body.payload == ms[q].page(origin.status)
    {
      RisePage(ms, preferred, depth, origin, q);
    }
  }

  /** The client asks for no coding: no header, none that is visible text, or none that offers any. */
  ghost predicate AsksForNone(header: Option<string>) {
    header.Some? && PlainText(header.value) ==>
      forall j, e, w: nat :: 0 <= j < |Split(header.value, ',')| ==> !Offers(Split(header.value, ',')[j], e, w)
  }

  /**
   A client that asks for no coding gets, through every shipped chain, the coding of the response's
   origin, or none if an error page replaced the response, and never an added one.
   */
  lemma NoneAdded(wire: Body -> nat, backend: Backend, chain: Chain, request: Request)
    requires Shipped(ToSeq(chain)) && Consistent(wire, Contact(backend, request))
    requires AsksForNone(request.acceptEncoding)
    ensures var ms := ToSeq(chain);
      var d := Descend(ms, request);
      var origin, out := Origin(backend, d), ForwardChain(backend, chain, request).response;
      if Replaced(ms, |d.seen| - 1, origin.status) then out.contentEncoding == None && out.body.codings == []
      else out.contentEncoding == origin.contentEncoding && out.body.codings == origin.body.codings
  {
    var ms := ToSeq(chain);
    NonePreferred(request.acceptEncoding);
    ShippedChain(backend, chain, request);
    OriginConsistent(wire, backend, ms, request);
    var d := Descend(ms, request);
    RiseUncoded(wire, ms, |d.seen| - 1, Origin(backend, d));
  }

  /** Without a preferred encoding the way up adds no coding. */
  lemma RiseUncoded(wire: Body -> nat, ms: seq<Middleware>, n: nat, r: Response)
    requires Shipped(ms) && n <= |ms| && Consistent(wire, r)
    ensures var out := Rise(ms, None, n, r);
      if Replaced(ms, n, r.status) then out.contentEncoding == None && out.body.codings == []
      else out.contentEncoding == r.contentEncoding && out.body.codings == r.body.codings
  {
    RiseCoding(ms, None, n, r);
    RiseConsistent(wire, ms, None, n, r);
  }

  lemma NonePreferred(header: Option<string>)
    requires AsksForNone(header)
    ensures PreferredEncoding(header) == None
  {
    FirstBestWins(header, Gzip);
  }

  lemma OriginConsistent(wire: Body -> nat, backend: Backend, ms: seq<Middleware>, request: Request)
    requires Shipped(ms) && Consistent(wire, Contact(backend, request))
    ensures Consistent(wire, Origin(backend, Descend(ms, request)))
  {
    ShippedDescent(ms, request);
    EarlyConsistent(wire, ms, request);
  }

  // ---------------------------------------------------------------- building the chain

  /** The entries that convert to a middleware, in table order. */
  function ValidEntries<T>(table: seq<T>, convert: T -> Option<Middleware>): seq<Middleware> {
    if table == [] then []
    else
      (if convert(table[0]).Some? then [convert(table[0]).value] else []) + ValidEntries(table[1..], convert)
  }

  function Convertible<T>(table: seq<T>, convert: T -> Option<Middleware>): seq<bool> {
    seq(|table|, i requires 0 <= i < |table| => convert(table[i]).Some?)
  }

  /** `ms` are the conversions of the table's convertible positions `ps`, in increasing order. */
  ghost predicate EntriesAt<T>(
    ps: seq<nat>, table: seq<T>, convert: T -> Option<Middleware>, ms: seq<Middleware>)
  {
    && PositionsOf(ps, Convertible(table, convert)) && |ms| == |ps|
    && forall j :: 0 <= j < |ps| ==> ps[j] < |table| && convert(table[ps[j]]) == Some(ms[j])
  }

  lemma {:induction false} EntriesInOrder<T>(table: seq<T>, convert: T -> Option<Middleware>) returns (ps: seq<nat>)
    ensures EntriesAt(ps, table, convert, ValidEntries(table, convert))
  {
    ps := [];
    if table != [] {
      var g, last := table[..|table| - 1], table[|table| - 1];
      ps := EntriesInOrder(g, convert);
      LastEntry(table, convert);
      assert table == g + [last];
      OneMoreEntry(ps, g, convert, ValidEntries(g, convert), last);
      if convert(last).Some? { ps := ps + [|g|]; }
    }
  }

  lemma OneMoreEntry<T>(
    ps: seq<nat>, g: seq<T>, convert: T -> Option<Middleware>, ms: seq<Middleware>, last: T)
    requires EntriesAt(ps, g, convert, ms)
    ensures convert(last).Some? ==> EntriesAt(ps + [|g|], g + [last], convert, ms + [convert(last).value])
    ensures convert(last).None? ==> EntriesAt(ps, g + [last], convert, ms)
  {
    assert Convertible(g + [last], convert) == Convertible(g, convert) + [convert(last).Some?];
    OneMorePosition(ps, Convertible(g, convert), convert(last).Some?);
  }

  lemma {:induction false} LastEntry<T>(table: seq<T>, convert: T -> Option<Middleware>)
    requires table != []
    ensures var n := |table| - 1;
      ValidEntries(table, convert) == ValidEntries(table[..n], convert)
        + if convert(table[n]).Some? then [convert(table[n]).value] else []
  {
    var n := |table| - 1;
    if n > 0 {
      LastEntry(table[1..], convert);
      assert table[..n][1..] == table[1..][..n - 1];
    }
  }

  /** The loop walks the table backwards and puts each middleware in front. */
  method BuildChain<T>(table: seq<T>, convert: T -> Option<Middleware>) returns (chain: Chain)
    ensures ToSeq(chain) == ValidEntries(table, convert)
  {
    chain := Empty;
    var i := |table|;
    while i > 0
      invariant 0 <= i <= |table|
      invariant ToSeq(chain) == ValidEntries(table[i..], convert)
    {
      i := i - 1;
      var middleware := convert(table[i]);
      assert table[i..][1..] == table[i + 1..];
      if middleware.Some? {
        chain := Entry(middleware.value, chain);
      }
    }
    assert table[0..] == table;
  }
}
