/**
 A rate limiter at work in a middleware chain (src/middleware/rate_limiter.rs in the chain of
 src/middleware/mod.rs): what its counting means for the backend behind the chain.
 */
module LimitedChains {
  import opened Wrappers
  import opened RateLimiting
  import MiddlewareChains

  /**
   One request on its way: the client, the time at which the limiter's lock is or would be taken,
   and the chain with everything it decides by at that moment.
   */
  datatype Attempt = Attempt(
    client: Address,
    time: nat,
    backend: MiddlewareChains.Backend,
    chain: MiddlewareChains.Chain,
    request: MiddlewareChains.Request)

  function Layers(x: Attempt): seq<MiddlewareChains.Middleware> {
    MiddlewareChains.ToSeq(x.chain)
  }

  /** All middlewares in front of position `k` let the request through. */
  predicate Reaches(x: Attempt, k: nat) {
    k < |Layers(x)| && forall j :: 0 <= j < k ==> MiddlewareChains.LetsThrough(Layers(x)[j], x.request)
  }

  /** The backend is contacted. */
  predicate Forwarded(x: Attempt) {
    MiddlewareChains.ForwardChain(x.backend, x.chain, x.request).sent != []
  }

  /** The history the limiter at position `k` sees: only requests that got that far. */
  function Seen(xs: seq<Attempt>, k: nat): seq<Arrival> {
    if xs == [] then []
    else
      var last := xs[|xs| - 1];
      Seen(xs[..|xs| - 1], k) + if Reaches(last, k) then [Arrival(last.client, last.time)] else []
  }

  /**
   Every chain is made of shipped middlewares and has the one limiter at position `k`, which
   decides on each request it sees by the history it has seen.
   */
  ghost predicate Limited(limit: nat, window: nat, xs: seq<Attempt>, k: nat) {
    forall n :: 0 <= n < |xs| ==>
      && MiddlewareChains.Shipped(Layers(xs[n])) && k < |Layers(xs[n])| && Layers(xs[n])[k].RateLimiter?
      && (Reaches(xs[n], k) ==>
            (Layers(xs[n])[k].admits(xs[n].request) <==> Admitted(limit, window, SeenWith(xs, n, k))))
  }

  /** What the limiter has seen once it looks at attempt `n`. */
  function SeenWith(xs: seq<Attempt>, n: nat, k: nat): (h: seq<Arrival>)
    requires n < |xs|
    ensures h != []
  {
    Seen(xs[..n], k) + [Arrival(xs[n].client, xs[n].time)]
  }

  ghost predicate InOrder(xs: seq<Attempt>) {
    forall i, j :: 0 <= i < j < |xs| ==> xs[i].time <= xs[j].time
  }

  lemma {:induction false} SeenChronological(xs: seq<Attempt>, k: nat)
    requires InOrder(xs)
    ensures Chronological(Seen(xs, k))
    ensures xs != [] ==> forall i :: 0 <= i < |Seen(xs, k)| ==> Seen(xs, k)[i].time <= xs[|xs| - 1].time
  {
    if xs != [] { SeenChronological(xs[..|xs| - 1], k); }
  }

  lemma {:induction false} FirstRefusal(ms: seq<MiddlewareChains.Middleware>, request: MiddlewareChains.Request)
    returns (i: nat)
    ensures i <= |ms| && forall j :: 0 <= j < i ==> MiddlewareChains.LetsThrough(ms[j], request)
    ensures i < |ms| ==> !MiddlewareChains.LetsThrough(ms[i], request)
  {
    i := 0;
    if ms != [] && MiddlewareChains.LetsThrough(ms[0], request) {
      var n := FirstRefusal(ms[1..], request);
      i := n + 1;
    }
  }

  /** The backend is contacted exactly if every middleware lets the request through. */
  lemma ForwardedExactly(x: Attempt)
    requires MiddlewareChains.Shipped(Layers(x))
    ensures Forwarded(x) <==>
      forall j :: 0 <= j < |Layers(x)| ==> MiddlewareChains.LetsThrough(Layers(x)[j], x.request)
  {
    var i := FirstRefusal(Layers(x), x.request);
    MiddlewareChains.FirstRefusalDecides(x.backend, x.chain, x.request, i);
  }

  /** How many requests of client `c` in the instants `a..b` got to the backend. */
  function Contacts(xs: seq<Attempt>, c: Address, a: nat, b: nat): nat {
    if xs == [] then 0
    else
      var last := xs[|xs| - 1];
      Contacts(xs[..|xs| - 1], c, a, b)
      + if last.client == c && a <= last.time <= b && Forwarded(last) then 1 else 0
  }

  lemma ShorterLimited(limit: nat, window: nat, xs: seq<Attempt>, k: nat)
    requires xs != [] && Limited(limit, window, xs, k) && InOrder(xs)
    ensures Limited(limit, window, xs[..|xs| - 1], k) && InOrder(xs[..|xs| - 1])
  {
    var g := xs[..|xs| - 1];
    assert forall n :: 0 <= n < |g| ==> g[..n] == xs[..n];
  }

  /** A request that gets to the backend has been seen and admitted by the limiter. */
  lemma ForwardedAdmitted(limit: nat, window: nat, xs: seq<Attempt>, k: nat)
    requires xs != [] && Limited(limit, window, xs, k) && Forwarded(xs[|xs| - 1])
    ensures var h := Seen(xs[..|xs| - 1], k) + [Arrival(xs[|xs| - 1].client, xs[|xs| - 1].time)];
      Seen(xs, k) == h && Admitted(limit, window, h)
  {
    var last := xs[|xs| - 1];
    ForwardedExactly(last);
    assert MiddlewareChains.LetsThrough(Layers(last)[k], last.request);
    assert Reaches(last, k);
    assert SeenWith(xs, |xs| - 1, k) == Seen(xs, k);
  }

  lemma AdmissionsStep(limit: nat, window: nat, h: seq<Arrival>, x: Arrival, c: Address, a: nat, b: nat)
    ensures Admissions(limit, window, h + [x], c, a, b) == Admissions(limit, window, h, c, a, b)
      + if x.client == c && a <= x.time <= b && Admitted(limit, window, h + [x]) then 1 else 0
  {
    assert (h + [x])[..|h|] == h;
  }

  /** What got to the backend was admitted by the limiter. */
  lemma {:induction false} ContactsAdmitted(
    limit: nat, window: nat, xs: seq<Attempt>, k: nat, c: Address, a: nat, b: nat)
    requires Limited(limit, window, xs, k) && InOrder(xs)
    ensures Contacts(xs, c, a, b) <= Admissions(limit, window, Seen(xs, k), c, a, b)
  {
    if xs != [] {
      var g, last := xs[..|xs| - 1], xs[|xs| - 1];
      ShorterLimited(limit, window, xs, k);
      ContactsAdmitted(limit, window, g, k, c, a, b);
      AdmissionsStep(limit, window, Seen(g, k), Arrival(last.client, last.time), c, a, b);
      if Forwarded(last) {
        ForwardedAdmitted(limit, window, xs, k);
      } else if !Reaches(last, k) {
        assert Seen(xs, k) == Seen(g, k);
      }
    }
  }

  /**
   End to end: wherever in the chain the limiter stands and whatever the other middlewares decide,
   the backend is contacted for one client at most `limit` times in any stretch of `window` whole
   seconds.
   */
  lemma BackendProtected(limit: nat, window: nat, xs: seq<Attempt>, k: nat, c: Address, a: nat, b: nat)
    requires Limited(limit, window, xs, k) && InOrder(xs)
    requires limit < U64_MAX && a <= b && WholeSeconds(b, a) <= window
    ensures Contacts(xs, c, a, b) <= limit
  {
    SeenChronological(xs, k);
    ContactsAdmitted(limit, window, xs, k, c, a, b);
    SlidingWindowBound(limit, window, Seen(xs, k), c, a, b);
  }
}
