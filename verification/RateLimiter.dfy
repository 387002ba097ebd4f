/**
 The rate limiter (src/middleware/rate_limiter.rs): one insertion-ordered map from client
 address to (count, time of last request), shared by all clients and evicted lazily.

 Instants are nanoseconds. The clock is read while the map is locked, so the requests of a
 limiter form one history with nondecreasing times.
 */
module RateLimiting {
  import opened Wrappers

  const U64_MAX: nat := 0xFFFF_FFFF_FFFF_FFFF
  const NANOS_PER_SEC: nat := 1_000_000_000

  type Address = string

  /** One entry of the linked hash map; the map is the sequence of its entries, oldest first. */
  datatype Entry = Entry(client: Address, count: nat, time: nat)

  datatype Arrival = Arrival(client: Address, time: nat)

  /** `now.duration_since(time).as_secs()` */
  function WholeSeconds(now: nat, time: nat): nat
    requires time <= now
  {
    (now - time) / NANOS_PER_SEC
  }

  /** The clock counts whole seconds of 10^9 nanoseconds, and counters stop at 2^64 - 1. */
  lemma UnitsExact(now: nat, time: nat, window: nat)
    requires time <= now
    ensures WholeSeconds(now, time) <= window <==> now - time < (window + 1) * 1_000_000_000
    ensures U64_MAX == 18_446_744_073_709_551_615
  {
  }

  // ---------------------------------------------------------------- histories and runs

  ghost predicate Chronological(h: seq<Arrival>) {
    forall i, j :: 0 <= i < j < |h| ==> h[i].time <= h[j].time
  }

  /** The request times of one client. */
  function Times(h: seq<Arrival>, c: Address): seq<nat> {
    if h == [] then []
    else
      var last := h[|h| - 1];
      Times(h[..|h| - 1], c) + if last.client == c then [last.time] else []
  }

  ghost predicate Ordered(ts: seq<nat>) {
    forall i, j :: 0 <= i < j < |ts| ==> ts[i] <= ts[j]
  }

  /** Requests `i` and `i+1` of a client are at most `window` whole seconds apart. */
  predicate Near(window: nat, ts: seq<nat>, i: nat)
    requires i + 1 < |ts|
  {
    ts[i] <= ts[i + 1] && WholeSeconds(ts[i + 1], ts[i]) <= window
  }

  /** Length of the latest run of requests without a pause of more than `window` whole seconds. */
  function RunLength(window: nat, ts: seq<nat>): (n: nat)
    ensures n <= |ts|
  {
    if ts == [] then 0
    else if |ts| == 1 || !Near(window, ts, |ts| - 2) then 1
    else RunLength(window, ts[..|ts| - 1]) + 1
  }

  /** The last `n` requests form a run, and the one before them (if any) does not belong to it. */
  ghost predicate IsLatestRun(window: nat, ts: seq<nat>, n: nat) {
    && n <= |ts|
    && (ts != [] ==> n >= 1)
    && (forall i :: |ts| - n <= i < |ts| - 1 ==> Near(window, ts, i))
    && (0 < n < |ts| ==> !Near(window, ts, |ts| - n - 1))
  }

  function Saturate(n: nat): nat {
    if n < U64_MAX then n else U64_MAX
  }

  // ---------------------------------------------------------------- the map

  function Get(es: seq<Entry>, c: Address): Option<Entry> {
    if es == [] then None else if es[0].client == c then Some(es[0]) else Get(es[1..], c)
  }

  /** A map has at most one entry per key. */
  ghost predicate DistinctClients(es: seq<Entry>) {
    es == [] || (Get(es[1..], es[0].client).None? && DistinctClients(es[1..]))
  }

  ghost predicate TimeSorted(es: seq<Entry>) {
    forall i, j :: 0 <= i < j < |es| ==> es[i].time <= es[j].time
  }

  ghost predicate NotAfter(es: seq<Entry>, now: nat) {
    forall i :: 0 <= i < |es| ==> es[i].time <= now
  }

  /** `LinkedHashMap::remove`, which keeps the order of the other entries. */
  function Without(es: seq<Entry>, c: Address): seq<Entry> {
    if es == [] then []
    else if es[0].client == c then es[1..]
    else [es[0]] + Without(es[1..], c)
  }

  predicate Stale(window: nat, now: nat, e: Entry) {
    e.time <= now && WholeSeconds(now, e.time) > window
  }

  /** Eviction without the early stop: every stale entry goes, wherever it is. */
  function FullScan(window: nat, now: nat, es: seq<Entry>): seq<Entry> {
    if es == [] then []
    else (if Stale(window, now, es[0]) then [] else [es[0]]) + FullScan(window, now, es[1..])
  }

  function NextCount(previous: Option<Entry>): nat {
    Saturate((if previous.Some? then previous.value.count else 0) + 1)
  }

  /** The map after one request. */
  function Register(window: nat, es: seq<Entry>, c: Address, now: nat): seq<Entry> {
    var kept := FullScan(window, now, es);
    Without(kept, c) + [Entry(c, NextCount(Get(kept, c)), now)]
  }

  /** The map after a whole history of requests. */
  function MapAfter(window: nat, h: seq<Arrival>): seq<Entry> {
    if h == [] then []
    else
      var last := h[|h| - 1];
      Register(window, MapAfter(window, h[..|h| - 1]), last.client, last.time)
  }

  /** Whether the last request of a history is let through. */
  predicate Admitted(limit: nat, window: nat, h: seq<Arrival>)
    requires h != []
  {
    var last := h[|h| - 1];
    var kept := FullScan(window, last.time, MapAfter(window, h[..|h| - 1]));
    NextCount(Get(kept, last.client)) <= limit
  }

  // ---------------------------------------------------------------- how the map operations act on a key

  lemma {:induction false} GetFullScan(window: nat, now: nat, es: seq<Entry>, c: Address)
    requires DistinctClients(es)
    ensures Get(FullScan(window, now, es), c)
         == (if Get(es, c).Some? && Stale(window, now, Get(es, c).value) then None else Get(es, c))
    ensures DistinctClients(FullScan(window, now, es))
  {
    if es != [] {
      var rest := FullScan(window, now, es[1..]);
      GetFullScan(window, now, es[1..], c);
      GetFullScan(window, now, es[1..], es[0].client);
      var kept := FullScan(window, now, es);
      if !Stale(window, now, es[0]) { assert kept[1..] == rest; } else { assert kept == rest; }
    }
  }

  lemma {:induction false} GetWithout(es: seq<Entry>, c: Address, d: Address)
    requires DistinctClients(es)
    ensures Get(Without(es, c), d) == if d == c then None else Get(es, d)
    ensures DistinctClients(Without(es, c))
  {
    if es != [] && es[0].client != c {
      GetWithout(es[1..], c, d);
      GetWithout(es[1..], c, es[0].client);
      assert Without(es, c)[1..] == Without(es[1..], c);
    }
  }

  lemma {:induction false} GetAppend(es: seq<Entry>, e: Entry, d: Address)
    ensures Get(es + [e], d) ==
      if Get(es, d).Some? then Get(es, d) else if e.client == d then Some(e) else None
    ensures DistinctClients(es) && Get(es, e.client).None? ==> DistinctClients(es + [e])
  {
    if es != [] {
      assert (es + [e])[1..] == es[1..] + [e];
      GetAppend(es[1..], e, d);
      GetAppend(es[1..], e, es[0].client);
    }
  }

  lemma GetRegister(window: nat, es: seq<Entry>, c: Address, now: nat, d: Address)
    requires DistinctClients(es)
    ensures DistinctClients(Register(window, es, c, now))
    ensures Get(Register(window, es, c, now), d) ==
      var kept := FullScan(window, now, es);
      if d == c then Some(Entry(c, NextCount(Get(kept, c)), now)) else Get(kept, d)
  {
    var kept := FullScan(window, now, es);
    var e := Entry(c, NextCount(Get(kept, c)), now);
    GetFullScan(window, now, es, d);
    GetWithout(kept, c, d);
    GetWithout(kept, c, c);
    GetAppend(Without(kept, c), e, d);
  }

  // ---------------------------------------------------------------- the order of the map

  /** The entries are in time order and their times lie between `lo` and `hi`. */
  ghost predicate Rising(es: seq<Entry>, lo: nat, hi: nat) {
    es == [] || (lo <= es[0].time <= hi && Rising(es[1..], es[0].time, hi))
  }

  lemma {:induction false} RisingLooser(es: seq<Entry>, lo: nat, hi: nat, lo': nat, hi': nat)
    requires Rising(es, lo, hi) && lo' <= lo && hi <= hi'
    ensures Rising(es, lo', hi')
  {
    if es != [] { RisingLooser(es[1..], es[0].time, hi, es[0].time, hi'); }
  }

  lemma {:induction false} RisingSorted(es: seq<Entry>, lo: nat, hi: nat)
    requires Rising(es, lo, hi)
    ensures TimeSorted(es) && NotAfter(es, hi)
    ensures forall i :: 0 <= i < |es| ==> lo <= es[i].time
  {
    if es != [] { RisingSorted(es[1..], es[0].time, hi); }
  }

  lemma {:induction false} RisingFullScan(window: nat, now: nat, es: seq<Entry>, lo: nat, hi: nat)
    requires Rising(es, lo, hi)
    ensures Rising(FullScan(window, now, es), lo, hi)
  {
    if es != [] {
      var rest := FullScan(window, now, es[1..]);
      RisingFullScan(window, now, es[1..], es[0].time, hi);
      if Stale(window, now, es[0]) {
        RisingLooser(rest, es[0].time, hi, lo, hi);
        assert FullScan(window, now, es) == rest;
      } else {
        assert FullScan(window, now, es)[1..] == rest;
      }
    }
  }

  lemma {:induction false} RisingWithout(es: seq<Entry>, c: Address, lo: nat, hi: nat)
    requires Rising(es, lo, hi)
    ensures Rising(Without(es, c), lo, hi)
  {
    if es != [] {
      RisingLooser(es[1..], es[0].time, hi, lo, hi);
      RisingWithout(es[1..], c, es[0].time, hi);
      if es[0].client != c { assert Without(es, c)[1..] == Without(es[1..], c); }
    }
  }

  lemma {:induction false} RisingAppend(es: seq<Entry>, lo: nat, e: Entry)
    requires Rising(es, lo, e.time) && lo <= e.time
    ensures Rising(es + [e], lo, e.time)
  {
    if es != [] {
      assert (es + [e])[1..] == es[1..] + [e];
      RisingAppend(es[1..], es[0].time, e);
    }
  }

  lemma {:induction false} FullScanKeepsFresh(window: nat, now: nat, es: seq<Entry>)
    requires forall i :: 0 <= i < |es| ==> !Stale(window, now, es[i])
    ensures FullScan(window, now, es) == es
  {
    if es != [] { FullScanKeepsFresh(window, now, es[1..]); }
  }

  /**
   Early stopping is sound: in a time-sorted map, dropping the leading stale entries leaves
   exactly what scanning the whole map would leave.
   */
  lemma {:induction false} EarlyStopIsFullScan(window: nat, now: nat, es: seq<Entry>, n: nat)
    requires TimeSorted(es) && NotAfter(es, now) && n <= |es|
    requires forall i :: 0 <= i < n ==> Stale(window, now, es[i])
    requires n < |es| ==> !Stale(window, now, es[n])
    ensures FullScan(window, now, es) == es[n..]
  {
    if n == 0 {
      forall i | 0 <= i < |es| ensures !Stale(window, now, es[i]) {
        if i > 0 { SecondsMonotone(now, es[0].time, es[i].time); }
      }
      FullScanKeepsFresh(window, now, es);
    } else {
      EarlyStopIsFullScan(window, now, es[1..], n - 1);
    }
  }

  /** A later instant is fewer whole seconds ago. */
  lemma SecondsMonotone(now: nat, t: nat, u: nat)
    requires t <= u <= now
    ensures WholeSeconds(now, u) <= WholeSeconds(now, t)
  {
  }

  // ---------------------------------------------------------------- refinement to per-client runs

  /** What the shared map knows about one client whose request times are `ts`. */
  ghost predicate Tracks(window: nat, e: Option<Entry>, ts: seq<nat>, now: nat) {
    match e
    case Some(entry) =>
      ts != [] && entry.time == ts[|ts| - 1] && entry.count == Saturate(RunLength(window, ts))
    case None =>
      ts != [] ==> ts[|ts| - 1] <= now && WholeSeconds(now, ts[|ts| - 1]) > window
  }

  lemma {:induction false} TimesOrdered(h: seq<Arrival>, c: Address)
    requires Chronological(h)
    ensures Ordered(Times(h, c))
    ensures h != [] ==> forall i :: 0 <= i < |Times(h, c)| ==> Times(h, c)[i] <= h[|h| - 1].time
  {
    if h != [] {
      TimesOrdered(h[..|h| - 1], c);
    }
  }

  /** The clock as of a history's last request. */
  function Clock(h: seq<Arrival>): nat {
    if h == [] then 0 else h[|h| - 1].time
  }

  lemma TracksStep(window: nat, e: Option<Entry>, ts: seq<nat>, before: nat, now: nat)
    requires Tracks(window, e, ts, before) && before <= now
    requires forall i :: 0 <= i < |ts| ==> ts[i] <= before
    ensures var kept := if e.Some? && Stale(window, now, e.value) then None else e;
      && Tracks(window, kept, ts, now)
      && NextCount(kept) == Saturate(RunLength(window, ts + [now]))
  {
    if ts != [] {
      var last := ts[|ts| - 1];
      SecondsAge(before, now, last);
      assert (ts + [now])[..|ts|] == ts;
      assert Near(window, ts + [now], |ts| - 1) <==> WholeSeconds(now, last) <= window;
    }
  }

  lemma SecondsAge(before: nat, now: nat, t: nat)
    requires t <= before <= now
    ensures WholeSeconds(before, t) <= WholeSeconds(now, t)
  {
  }

  lemma {:induction false} MapShape(window: nat, h: seq<Arrival>)
    requires Chronological(h)
    ensures DistinctClients(MapAfter(window, h)) && Rising(MapAfter(window, h), 0, Clock(h))
  {
    if h != [] {
      var g, last := h[..|h| - 1], h[|h| - 1];
      var es := MapAfter(window, g);
      var kept := FullScan(window, last.time, es);
      MapShape(window, g);
      RisingLooser(es, 0, Clock(g), 0, last.time);
      RisingFullScan(window, last.time, es, 0, last.time);
      RisingWithout(kept, last.client, 0, last.time);
      RisingAppend(Without(kept, last.client), 0, Entry(last.client, NextCount(Get(kept, last.client)), last.time));
      GetRegister(window, es, last.client, last.time, last.client);
    }
  }

  /** Over every history, the shared map knows of each client exactly its latest run. */
  lemma {:induction false} MapTracks(window: nat, h: seq<Arrival>, c: Address)
    requires Chronological(h)
    ensures Tracks(window, Get(MapAfter(window, h), c), Times(h, c), Clock(h))
  {
    if h != [] {
      var g, last := h[..|h| - 1], h[|h| - 1];
      var es := MapAfter(window, g);
      MapTracks(window, g, c);
      MapShape(window, g);
      TimesOrdered(g, c);
      TracksStep(window, Get(es, c), Times(g, c), Clock(g), last.time);
      GetFullScan(window, last.time, es, c);
      GetRegister(window, es, last.client, last.time, c);
      assert last.client != c ==> Times(h, c) == Times(g, c);
    }
  }

  /**
   Refinement: the decision on a request depends only on the requesting client's own latest run,
   although all clients share one map and evict each other's entries.
   */
  lemma AdmittedByRun(limit: nat, window: nat, h: seq<Arrival>)
    requires Chronological(h) && h != []
    ensures Admitted(limit, window, h) <==>
      Saturate(RunLength(window, Times(h, h[|h| - 1].client))) <= limit
  {
    var g, last := h[..|h| - 1], h[|h| - 1];
    var es := MapAfter(window, g);
    MapTracks(window, g, last.client);
    MapShape(window, g);
    TimesOrdered(g, last.client);
    TracksStep(window, Get(es, last.client), Times(g, last.client), Clock(g), last.time);
    GetFullScan(window, last.time, es, last.client);
  }

  /** Other clients' traffic is invisible: equal own times give equal decisions. */
  lemma ClientsIndependent(limit: nat, window: nat, h: seq<Arrival>, h': seq<Arrival>)
    requires Chronological(h) && h != [] && Chronological(h') && h' != []
    requires h[|h| - 1].client == h'[|h'| - 1].client
    requires Times(h, h[|h| - 1].client) == Times(h', h[|h| - 1].client)
    ensures Admitted(limit, window, h) == Admitted(limit, window, h')
  {
    AdmittedByRun(limit, window, h);
    AdmittedByRun(limit, window, h');
  }

  /** `RunLength` is the length of the one maximal run that ends with the latest request. */
  lemma {:induction false} RunLengthIsLatestRun(window: nat, ts: seq<nat>, n: nat)
    ensures IsLatestRun(window, ts, n) <==> n == RunLength(window, ts)
  {
    if |ts| >= 2 {
      var g := ts[..|ts| - 1];
      assert forall i :: 0 <= i < |g| - 1 ==> Near(window, ts, i) == Near(window, g, i);
      if Near(window, ts, |ts| - 2) {
        if n >= 1 {
          RunLengthIsLatestRun(window, g, n - 1);
        }
        assert !IsLatestRun(window, ts, 1);
        assert IsLatestRun(window, ts, n) ==> n >= 2;
        if n >= 2 {
          assert IsLatestRun(window, ts, n) <==> IsLatestRun(window, g, n - 1);
        }
      }
    }
  }

  // ---------------------------------------------------------------- the sliding-window bound

  /** How many requests of `c` in the instants `a..b` were made, and how many admitted. */
  function Requests(h: seq<Arrival>, c: Address, a: nat, b: nat): nat {
    if h == [] then 0
    else
      var last := h[|h| - 1];
      Requests(h[..|h| - 1], c, a, b) + if last.client == c && a <= last.time <= b then 1 else 0
  }

  function Admissions(limit: nat, window: nat, h: seq<Arrival>, c: Address, a: nat, b: nat): nat {
    if h == [] then 0
    else
      var last := h[|h| - 1];
      Admissions(limit, window, h[..|h| - 1], c, a, b)
      + if last.client == c && a <= last.time <= b && Admitted(limit, window, h) then 1 else 0
  }

  /** The latest of a client's times lies in the stretch `a..b`, or before it. */
  predicate LastIn(ts: seq<nat>, a: nat, b: nat) {
    ts != [] && a <= ts[|ts| - 1] <= b
  }

  predicate LastBefore(ts: seq<nat>, a: nat) {
    ts == [] || ts[|ts| - 1] < a
  }

  /** One more time within the stretch extends the run of those before it. */
  lemma RunExtends(window: nat, us: seq<nat>, t: nat, a: nat, b: nat)
    requires LastIn(us, a, b) && us[|us| - 1] <= t <= b && WholeSeconds(b, a) <= window
    ensures RunLength(window, us + [t]) == RunLength(window, us) + 1
  {
    var ts := us + [t];
    assert ts[..|ts| - 1] == us;
    assert t - us[|us| - 1] <= b - a;
    assert Near(window, ts, |ts| - 2);
  }

  /** The latest run covers the `n` requests in the stretch, if the latest request lies in it. */
  ghost predicate Covers(window: nat, ts: seq<nat>, a: nat, b: nat, n: nat) {
    && (LastIn(ts, a, b) ==> RunLength(window, ts) >= n)
    && (LastBefore(ts, a) ==> n == 0)
  }

  lemma CoversOneMore(window: nat, us: seq<nat>, t: nat, a: nat, b: nat, n: nat)
    requires a <= b && WholeSeconds(b, a) <= window && Covers(window, us, a, b, n)
    requires us != [] ==> us[|us| - 1] <= t
    ensures Covers(window, us + [t], a, b, n + if a <= t <= b then 1 else 0)
  {
    if a <= t <= b && LastIn(us, a, b) { RunExtends(window, us, t, a, b); }
  }

  lemma {:induction false} RunCoversWindow(window: nat, h: seq<Arrival>, c: Address, a: nat, b: nat)
    requires Chronological(h) && a <= b && WholeSeconds(b, a) <= window
    ensures Covers(window, Times(h, c), a, b, Requests(h, c, a, b))
  {
    if h != [] {
      var g, last := h[..|h| - 1], h[|h| - 1];
      RunCoversWindow(window, g, c, a, b);
      if last.client != c {
        assert Times(h, c) == Times(g, c);
      } else {
        LastNotAfter(g, c, last.time);
        CoversOneMore(window, Times(g, c), last.time, a, b, Requests(g, c, a, b));
      }
    }
  }

  lemma LastNotAfter(g: seq<Arrival>, c: Address, now: nat)
    requires Chronological(g) && (g != [] ==> g[|g| - 1].time <= now)
    ensures Times(g, c) != [] ==> Times(g, c)[|Times(g, c)| - 1] <= now
  {
    TimesOrdered(g, c);
  }

  /**
   A client is admitted at most `limit` times in any stretch of `window` whole seconds, whatever
   the history, provided the limit is below the counter's ceiling.
   */
  lemma {:induction false} SlidingWindowBound(limit: nat, window: nat, h: seq<Arrival>, c: Address, a: nat, b: nat)
    requires Chronological(h) && a <= b && WholeSeconds(b, a) <= window
    requires limit < U64_MAX
    ensures Admissions(limit, window, h, c, a, b) <= limit
    ensures Admissions(limit, window, h, c, a, b) <= Requests(h, c, a, b)
  {
    if h != [] {
      var g, last := h[..|h| - 1], h[|h| - 1];
      SlidingWindowBound(limit, window, g, c, a, b);
      if last.client == c && a <= last.time <= b && Admitted(limit, window, h) {
        AdmittedByRun(limit, window, h);
        RunCoversWindow(window, h, c, a, b);
      }
    }
  }

  /** At the ceiling the counter stops and everything is admitted. */
  lemma {:induction false} CeilingAdmitsAll(window: nat, n: nat)
    ensures Chronological(Burst(n))
    ensures Admissions(U64_MAX, window, Burst(n), "c", 0, 0) == n
  {
    if n > 0 {
      assert Burst(n)[..n - 1] == Burst(n - 1);
      CeilingAdmitsAll(window, n - 1);
    }
  }

  function Burst(n: nat): seq<Arrival> {
    seq(n, _ => Arrival("c", 0))
  }

  /** The bound holds for all histories exactly when the limit is below the ceiling. */
  lemma BoundHoldsExactlyBelowCeiling(limit: nat, window: nat)
    requires limit <= U64_MAX
    ensures limit < U64_MAX <==>
      forall h, c, a, b :: Chronological(h) && a <= b && WholeSeconds(b, a) <= window ==>
        Admissions(limit, window, h, c, a, b) <= limit
  {
    if limit < U64_MAX {
      forall h, c, a, b | Chronological(h) && a <= b && WholeSeconds(b, a) <= window
        ensures Admissions(limit, window, h, c, a, b) <= limit
      {
        SlidingWindowBound(limit, window, h, c, a, b);
      }
    } else {
      CeilingAdmitsAll(window, U64_MAX + 1);
    }
  }

  lemma {:induction false} RejectedRunGrows(limit: nat, window: nat, ts: seq<nat>, i: nat, j: nat)
    requires i <= j < |ts|
    requires RunLength(window, ts[..i + 1]) > limit
    requires forall k :: i <= k < j ==> Near(window, ts, k)
    ensures RunLength(window, ts[..j + 1]) > limit
  {
    if i < j {
      RejectedRunGrows(limit, window, ts, i, j - 1);
      var g := ts[..j + 1];
      assert g[..j] == ts[..j - 1 + 1];
      assert Near(window, ts, j - 1) == Near(window, g, j - 1);
    }
  }

  lemma {:induction false} TimesPrefix(g: seq<Arrival>, h: seq<Arrival>, c: Address)
    requires g <= h
    ensures Times(g, c) <= Times(h, c)
    decreases |h|
  {
    if |g| < |h| {
      TimesPrefix(g, h[..|h| - 1], c);
    } else {
      assert g == h;
    }
  }

  /**
   After a rejection a client is not admitted again until it has paused: between a request
   rejected at the end of `g` and one of the same client admitted at the end of the longer `f`,
   two consecutive requests of that client lie more than `window` whole seconds apart.
   */
  lemma RejectedUntilPause(limit: nat, window: nat, g: seq<Arrival>, f: seq<Arrival>, c: Address) returns (k: nat)
    requires Chronological(f) && g != [] && g <= f && g[|g| - 1].client == c && f[|f| - 1].client == c
    requires !Admitted(limit, window, g) && Admitted(limit, window, f)
    ensures |Times(g, c)| - 1 <= k < |Times(f, c)| - 1
    ensures !Near(window, Times(f, c), k)
  {
    var ts, p := Times(f, c), |Times(g, c)|;
    assert Chronological(g);
    AdmittedByRun(limit, window, g);
    AdmittedByRun(limit, window, f);
    TimesPrefix(g, f, c);
    assert ts[..p] == Times(g, c) && ts[..|ts|] == ts;
    k := PauseBetween(limit, window, ts, p, |ts|);
  }

  lemma PauseBetween(limit: nat, window: nat, ts: seq<nat>, p: nat, q: nat) returns (k: nat)
    requires 0 < p <= q <= |ts|
    requires Saturate(RunLength(window, ts[..p])) > limit >= Saturate(RunLength(window, ts[..q]))
    ensures p - 1 <= k < q - 1 && !Near(window, ts, k)
  {
    if forall i :: p - 1 <= i < q - 1 ==> Near(window, ts, i) {
      RejectedRunGrows(limit, window, ts, p - 1, q - 1);
      assert false;
    }
    k :| p - 1 <= k < q - 1 && !Near(window, ts, k);
  }

  // ---------------------------------------------------------------- the documented converse

  /** The longest spacing that does not break a run. */
  function Gap(window: nat): nat {
    (window + 1) * NANOS_PER_SEC - 1
  }

  /** Requests of one client at that spacing. */
  function Drip(window: nat, n: nat): seq<Arrival> {
    seq(n, i requires 0 <= i => Arrival("c", DripTime(window, i)))
  }

  function DripTime(window: nat, i: nat): nat {
    MulOrder(0, i, Gap(window));
    i * Gap(window)
  }

  lemma GapFacts(window: nat, a: nat, b: nat)
    requires a <= b
    ensures Gap(window) > 0
    ensures WholeSeconds(b, a) <= window <==> b - a <= Gap(window)
  {
  }

  lemma MulOrder(i: nat, j: nat, g: nat)
    requires i <= j
    ensures i * g <= j * g
    ensures j == i + 1 ==> j * g == i * g + g
  {
  }

  lemma DripChronological(window: nat, n: nat)
    ensures Chronological(Drip(window, n))
  {
    forall i, j | 0 <= i < j < n ensures Drip(window, n)[i].time <= Drip(window, n)[j].time {
      MulOrder(i, j, Gap(window));
    }
  }

  /** A drip is one run, however long it gets. */
  lemma {:induction false} DripRun(window: nat, n: nat)
    ensures var ts := Times(Drip(window, n), "c");
      && |ts| == n && RunLength(window, ts) == n
      && (n > 0 ==> ts[n - 1] == (n - 1) * Gap(window))
  {
    if n > 0 {
      var ts := Times(Drip(window, n), "c");
      DripRun(window, n - 1);
      assert Drip(window, n)[..n - 1] == Drip(window, n - 1);
      assert ts[..n - 1] == Times(Drip(window, n - 1), "c");
      if n > 1 {
        MulOrder(n - 2, n - 1, Gap(window));
        GapFacts(window, ts[n - 2], ts[n - 1]);
        assert Near(window, ts, n - 2);
      }
    }
  }

  lemma {:induction false} DripBefore(window: nat, n: nat, a: nat, b: nat)
    requires n > 0 ==> a > (n - 1) * Gap(window)
    ensures Requests(Drip(window, n), "c", a, b) == 0
  {
    if n > 0 {
      assert Drip(window, n)[..n - 1] == Drip(window, n - 1);
      if n > 1 { MulOrder(n - 2, n - 1, Gap(window)); }
      DripBefore(window, n - 1, a, b);
    }
  }

  /** No window holds more than two requests of a drip. */
  lemma {:induction false} DripSparse(window: nat, n: nat, a: nat, b: nat)
    requires a <= b && b - a <= Gap(window)
    ensures Requests(Drip(window, n), "c", a, b) <= 2
  {
    if n > 0 {
      assert Drip(window, n)[..n - 1] == Drip(window, n - 1);
      DripSparse(window, n - 1, a, b);
      if n > 2 && (n - 1) * Gap(window) <= b {
        assert Drip(window, n - 1)[..n - 2] == Drip(window, n - 2);
        MulOrder(n - 2, n - 1, Gap(window));
        MulOrder(n - 3, n - 2, Gap(window));
        GapFacts(window, a, b);
        DripBefore(window, n - 2, a, b);
      } else if n == 2 {
        assert Drip(window, 1)[..0] == [];
      }
    }
  }

  /**
   A rejection does not mean that more than `limit` messages came within `window` seconds: for
   every limit from 2 up to below the ceiling, steady requests are rejected in the end although
   no window ever holds more than two of them.
   */
  lemma RejectionWithoutBurst(limit: nat, window: nat)
    requires 2 <= limit < U64_MAX
    ensures var h := Drip(window, limit + 1);
      && Chronological(h) && !Admitted(limit, window, h)
      && forall a, b :: a <= b && WholeSeconds(b, a) <= window ==> Requests(h, "c", a, b) <= 2
  {
    var h := Drip(window, limit + 1);
    DripChronological(window, limit + 1);
    DripRun(window, limit + 1);
    AdmittedByRun(limit, window, h);
    forall a, b | a <= b && WholeSeconds(b, a) <= window ensures Requests(h, "c", a, b) <= 2 {
      GapFacts(window, a, b);
      DripSparse(window, limit + 1, a, b);
    }
  }

  /** Some window of the history holds more than `limit` requests of its last client. */
  ghost predicate HasBurst(limit: nat, window: nat, h: seq<Arrival>)
    requires h != []
  {
    exists a, b :: a <= b && WholeSeconds(b, a) <= window && Requests(h, h[|h| - 1].client, a, b) > limit
  }

  lemma BurstOf(limit: nat, window: nat, h: seq<Arrival>, a: nat, b: nat)
    requires h != [] && a <= b && WholeSeconds(b, a) <= window
    requires Requests(h, h[|h| - 1].client, a, b) > limit
    ensures HasBurst(limit, window, h)
  {
  }

  /** The window from a client's latest time on holds at least one request. */
  lemma {:induction false} RequestsAtLast(h: seq<Arrival>, c: Address, b: nat)
    requires Times(h, c) != [] && Times(h, c)[|Times(h, c)| - 1] <= b
    ensures Requests(h, c, Times(h, c)[|Times(h, c)| - 1], b) >= 1
  {
    var g, last := h[..|h| - 1], h[|h| - 1];
    if last.client != c {
      assert Times(h, c) == Times(g, c);
      RequestsAtLast(g, c, b);
    }
  }

  lemma SmallLimitNeedsBurst(limit: nat, window: nat, h: seq<Arrival>)
    requires limit <= 1 && Chronological(h) && h != [] && !Admitted(limit, window, h)
    ensures HasBurst(limit, window, h)
  {
    var g, last := h[..|h| - 1], h[|h| - 1];
    var c := last.client;
    var ts := Times(h, c);
    AdmittedByRun(limit, window, h);
    TimesOrdered(h, c);
    if limit == 0 {
      RequestsAtLast(h, c, last.time);
      BurstOf(limit, window, h, last.time, last.time);
    } else {
      assert |ts| >= 2 && Near(window, ts, |ts| - 2);
      var a := ts[|ts| - 2];
      assert Times(g, c)[|Times(g, c)| - 1] == a;
      RequestsAtLast(g, c, last.time);
      BurstOf(limit, window, h, a, last.time);
    }
  }

  /**
   The documented converse, that only a burst is rejected, holds for all histories exactly for the
   limits 0 and 1 and at the ceiling, whatever the window.
   */
  lemma OnlyBurstsRejectedExactly(limit: nat, window: nat)
    requires limit <= U64_MAX
    ensures limit <= 1 || limit == U64_MAX <==>
      forall h :: Chronological(h) && h != [] && !Admitted(limit, window, h) ==> HasBurst(limit, window, h)
  {
    if limit <= 1 || limit == U64_MAX {
      forall h | Chronological(h) && h != [] && !Admitted(limit, window, h) ensures HasBurst(limit, window, h) {
        if limit <= 1 { SmallLimitNeedsBurst(limit, window, h); } else { AdmittedByRun(limit, window, h); }
      }
    } else {
      var h := Drip(window, limit + 1);
      RejectionWithoutBurst(limit, window);
      assert h[|h| - 1].client == "c";
      assert !HasBurst(limit, window, h);
    }
  }

  // ---------------------------------------------------------------- the limiter

  class RateLimiter {
    const limit: nat
    const windowSec: nat
    var connections: seq<Entry>
    ghost var history: seq<Arrival>

    /** The map is what the history of requests makes of it. */
    ghost predicate Valid()
      reads this
    {
      Chronological(history) && connections == MapAfter(windowSec, history)
    }

    constructor (limit: nat, windowSec: nat)
      ensures Valid() && history == [] && this.limit == limit && this.windowSec == windowSec
    {
      this.limit := limit;
      this.windowSec := windowSec;
      connections := [];
      history := [];
    }

    /** Collects the leading stale entries, then removes each by key. */
    method EvictStale(now: nat)
      requires Rising(connections, 0, now)
      modifies this`connections
      ensures connections == FullScan(windowSec, now, old(connections))
    {
      ghost var es := connections;
      RisingSorted(es, 0, now);
      var oldEntries: seq<Address> := [];
      while |oldEntries| < |connections| && Stale(windowSec, now, connections[|oldEntries|])
        invariant |oldEntries| <= |connections|
        invariant forall i :: 0 <= i < |oldEntries| ==>
          oldEntries[i] == connections[i].client && Stale(windowSec, now, connections[i])
      {
        oldEntries := oldEntries + [connections[|oldEntries|].client];
      }
      EarlyStopIsFullScan(windowSec, now, es, |oldEntries|);
      for i := 0 to |oldEntries|
        invariant connections == es[i..]
      {
        connections := Without(connections, oldEntries[i]);
      }
    }

    /** `now` is read from a monotonic clock while the map is locked. */
    method RegisterRequest(client: Address, now: nat) returns (admitted: bool)
      requires Valid() && Clock(history) <= now
      modifies this
      ensures Valid() && history == old(history) + [Arrival(client, now)]
      ensures admitted <==> Saturate(RunLength(windowSec, Times(history, client))) <= limit
      ensures admitted <==> Admitted(limit, windowSec, history)
    {
      MapShape(windowSec, history);
      RisingLooser(connections, 0, Clock(history), 0, now);
      OneMore(limit, windowSec, history, client, now);
      EvictStale(now);
      var count := CountAndInsert(client, now);
      history := history + [Arrival(client, now)];
      admitted := count <= limit;
    }

    /** Removes and reinserts the client's entry, so that it comes last. */
    method CountAndInsert(client: Address, now: nat) returns (count: nat)
      requires Get(connections, client).Some? ==> Get(connections, client).value.count <= U64_MAX
      modifies this`connections
      ensures count == NextCount(Get(old(connections), client))
      ensures connections == Without(old(connections), client) + [Entry(client, count, now)]
    {
      var previous := Get(connections, client);
      connections := Without(connections, client);
      count := if previous.Some? then previous.value.count else 0;
      if count < U64_MAX {
        count := count + 1;
      }
      connections := connections + [Entry(client, count, now)];
    }
  }

  /** What one more request does to the map, and when it is admitted. */
  lemma OneMore(limit: nat, window: nat, h: seq<Arrival>, c: Address, now: nat)
    requires Chronological(h) && Clock(h) <= now
    ensures var h' := h + [Arrival(c, now)];
      var e := Get(FullScan(window, now, MapAfter(window, h)), c);
      && Chronological(h') && MapAfter(window, h') == Register(window, MapAfter(window, h), c, now)
      && (e.Some? ==> e.value.count <= U64_MAX)
      && (NextCount(e) <= limit <==> Admitted(limit, window, h'))
      && (NextCount(e) <= limit <==> Saturate(RunLength(window, Times(h', c))) <= limit)
  {
    var h' := h + [Arrival(c, now)];
    assert h'[..|h|] == h;
    AdmittedByRun(limit, window, h');
    CountsFit(window, h, c, now);
  }

  lemma CountsFit(window: nat, h: seq<Arrival>, c: Address, now: nat)
    requires Chronological(h) && Clock(h) <= now
    ensures var e := Get(FullScan(window, now, MapAfter(window, h)), c);
      e.Some? ==> e.value.count <= U64_MAX
  {
    MapShape(window, h);
    MapTracks(window, h, c);
    GetFullScan(window, now, MapAfter(window, h), c);
  }
}
