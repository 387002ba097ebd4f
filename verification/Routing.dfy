/**
 From request to backend (src/server.rs) under concurrent health updates (src/health.rs): the
 first matching pool, its working addresses as read one by one while the health watcher may
 store new values, and the address its strategy picks.
 */
module Routing {
  import opened Wrappers
  import MatcherParser
  import Balancing
  import MiddlewareChains

  // ---------------------------------------------------------------- health

  datatype Healthiness = Healthy | Slow(millis: int) | Unresponsive(status: Option<nat>)

  /** What a health probe came back with: no response, or a status and a response time. */
  datatype Probe = NoResponse | Responded(status: nat, millis: int)

  function Classify(probe: Probe, slowThreshold: int): Healthiness {
    match probe
    case NoResponse => Unresponsive(None)
    case Responded(status, millis) =>
      if 200 <= status < 300 then if millis > slowThreshold then Slow(millis) else Healthy
      else Unresponsive(Some(status))
  }

  /** Each class says what was measured, and nothing else leads to it. */
  lemma ClassifyExact(probe: Probe, slowThreshold: int, h: Healthiness)
    ensures Classify(probe, slowThreshold) == h <==>
      match h
      case Healthy => Succeeded(probe) && probe.millis <= slowThreshold
      case Slow(millis) => Succeeded(probe) && probe.millis == millis && millis > slowThreshold
      case Unresponsive(None) => probe == NoResponse
      case Unresponsive(Some(status)) => probe.Responded? && probe.status == status && !Succeeded(probe)
  {
  }

  predicate Succeeded(probe: Probe) {
    probe.Responded? && 200 <= probe.status < 300
  }

  /** One round of checks: each cell is stored to only if its value changed. */
  method CheckRound(cells: array<Healthiness>, probes: seq<Probe>, slowThreshold: int)
    requires cells.Length == |probes|
    modifies cells
    ensures forall i :: 0 <= i < |probes| ==> cells[i] == Classify(probes[i], slowThreshold)
  {
    for i := 0 to |probes|
      invariant forall k :: 0 <= k < i ==> cells[k] == Classify(probes[k], slowThreshold)
    {
      var previous := cells[i];
      var result := Classify(probes[i], slowThreshold);
      if previous != result {
        cells[i] := result;
      }
    }
  }

  // ---------------------------------------------------------------- pools

  datatype Scheme = HTTP | HTTPS

  datatype Pool = Pool(
    matcher: MatcherParser.Matcher,
    addresses: seq<string>,
    schemes: set<Scheme>,
    strategy: Balancing.Strategy,
    chain: MiddlewareChains.Chain)

  function Filter<T>(p: T -> bool, s: seq<T>): seq<T> {
    if s == [] then [] else (if p(s[0]) then [s[0]] else []) + Filter(p, s[1..])
  }

  function Find<T>(p: T -> bool, s: seq<T>): Option<T> {
    if s == [] then None else if p(s[0]) then Some(s[0]) else Find(p, s[1..])
  }

  /** `pool_by_req` */
  function PoolByReq(lib: MatcherParser.Library, pools: seq<Pool>, request: MatcherParser.Request, scheme: Scheme)
    : Option<Pool>
  {
    Find((pool: Pool) => MatcherParser.Matches(lib, pool.matcher, request),
         Filter((pool: Pool) => scheme in pool.schemes, pools))
  }

  lemma {:induction false} FindInFilter<T>(p: T -> bool, q: T -> bool, s: seq<T>, i: nat)
    requires i < |s| && p(s[i]) && q(s[i]) && forall j :: 0 <= j < i ==> !(p(s[j]) && q(s[j]))
    ensures Find(q, Filter(p, s)) == Some(s[i])
  {
    FilterHead(p, s);
    if i > 0 { FindInFilter(p, q, s[1..], i - 1); }
  }

  lemma {:induction false} FindNothing<T>(p: T -> bool, q: T -> bool, s: seq<T>)
    ensures Find(q, Filter(p, s)).None? <==> forall j :: 0 <= j < |s| ==> !(p(s[j]) && q(s[j]))
  {
    if s != [] {
      FilterHead(p, s);
      FindNothing(p, q, s[1..]);
      assert forall j :: 0 < j < |s| ==> s[j] == s[1..][j - 1];
    }
  }

  lemma FilterHead<T>(p: T -> bool, s: seq<T>)
    requires s != []
    ensures p(s[0]) ==> Filter(p, s) != [] && Filter(p, s)[0] == s[0] && Filter(p, s)[1..] == Filter(p, s[1..])
    ensures !p(s[0]) ==> Filter(p, s) == Filter(p, s[1..])
  {
  }

  predicate Eligible(lib: MatcherParser.Library, pool: Pool, request: MatcherParser.Request, scheme: Scheme) {
    scheme in pool.schemes && MatcherParser.Matches(lib, pool.matcher, request)
  }

  /** The pool found is the first configured one that supports the scheme and matches. */
  lemma FirstEligiblePool(
    lib: MatcherParser.Library, pools: seq<Pool>, request: MatcherParser.Request, scheme: Scheme, i: nat)
    ensures (i < |pools| && Eligible(lib, pools[i], request, scheme)
             && forall j :: 0 <= j < i ==> !Eligible(lib, pools[j], request, scheme))
      ==> PoolByReq(lib, pools, request, scheme) == Some(pools[i])
    ensures PoolByReq(lib, pools, request, scheme).None? <==>
      forall j :: 0 <= j < |pools| ==> !Eligible(lib, pools[j], request, scheme)
  {
    var p := (pool: Pool) => scheme in pool.schemes;
    var q := (pool: Pool) => MatcherParser.Matches(lib, pool.matcher, request);
    FindNothing(p, q, pools);
    if i < |pools| && p(pools[i]) && q(pools[i]) && forall j :: 0 <= j < i ==> !(p(pools[j]) && q(pools[j])) {
      FindInFilter(p, q, pools, i);
    }
  }

  // ---------------------------------------------------------------- reading the working addresses

  /** The values loaded so far: a first pass over all cells, and a second one if nothing was healthy. */
  datatype Reader = Reader(first: seq<Healthiness>, second: seq<Healthiness>)

  function Having(addresses: seq<string>, loaded: seq<Healthiness>, slow: bool): seq<string>
    requires |loaded| <= |addresses|
  {
    if loaded == [] then []
    else
      var n := |loaded| - 1;
      Having(addresses, loaded[..n], slow)
      + if (if slow then loaded[n].Slow? else loaded[n].Healthy?) then [addresses[n]] else []
  }

  predicate NeedsSecond(addresses: seq<string>, r: Reader)
    requires |r.first| <= |addresses|
  {
    |r.first| == |addresses| && Having(addresses, r.first, false) == []
  }

  predicate Finished(addresses: seq<string>, r: Reader)
    requires |r.first| <= |addresses| && |r.second| <= |addresses|
  {
    |r.first| == |addresses| && (NeedsSecond(addresses, r) ==> |r.second| == |addresses|)
  }

  /** The working addresses: those loaded as healthy, or, if there are none, those loaded as slow. */
  function Working(addresses: seq<string>, r: Reader): seq<string>
    requires |r.first| <= |addresses| && |r.second| <= |addresses|
  {
    if NeedsSecond(addresses, r) then Having(addresses, r.second, true) else Having(addresses, r.first, false)
  }

  /** A load of the request being served, or a store of the health watcher. */
  datatype Event = Load | Store(cell: nat, value: Healthiness)

  datatype State = State(cells: seq<Healthiness>, reader: Reader)

  predicate Shaped(addresses: seq<string>, s: State) {
    && |s.cells| == |addresses|
    && |s.reader.first| <= |addresses| && |s.reader.second| <= |addresses|
  }

  function Next(addresses: seq<string>, s: State, e: Event): (s': State)
    requires Shaped(addresses, s)
    ensures Shaped(addresses, s')
  {
    match e
    case Store(cell, value) => if cell < |s.cells| then s.(cells := s.cells[cell := value]) else s
    case Load =>
      var r := s.reader;
      if |r.first| < |addresses| then s.(reader := r.(first := r.first + [s.cells[|r.first|]]))
      else if NeedsSecond(addresses, r) && |r.second| < |addresses|
      then s.(reader := r.(second := r.second + [s.cells[|r.second|]]))
      else s
  }

  function After(addresses: seq<string>, cells: seq<Healthiness>, es: seq<Event>): (s: State)
    requires |cells| == |addresses|
    ensures Shaped(addresses, s)
  {
    if es == [] then State(cells, Reader([], []))
    else Next(addresses, After(addresses, cells, es[..|es| - 1]), es[|es| - 1])
  }

  /** Cell `i` held `value` just before some event of the run. */
  ghost predicate HeldDuring(
    addresses: seq<string>, cells: seq<Healthiness>, es: seq<Event>, i: nat, value: Healthiness)
    requires |cells| == |addresses| && i < |addresses|
  {
    exists t :: 0 <= t < |es| && After(addresses, cells, es[..t]).cells[i] == value
  }

  lemma HeldLonger(addresses: seq<string>, cells: seq<Healthiness>, es: seq<Event>, i: nat, value: Healthiness)
    requires |cells| == |addresses| && i < |addresses| && es != []
    requires HeldDuring(addresses, cells, es[..|es| - 1], i, value)
    ensures HeldDuring(addresses, cells, es, i, value)
  {
    var g := es[..|es| - 1];
    var t :| 0 <= t < |g| && After(addresses, cells, g[..t]).cells[i] == value;
    assert es[..t] == g[..t];
  }

  lemma HeldLast(addresses: seq<string>, cells: seq<Healthiness>, es: seq<Event>, i: nat)
    requires |cells| == |addresses| && i < |addresses| && es != []
    ensures HeldDuring(addresses, cells, es, i, After(addresses, cells, es[..|es| - 1]).cells[i])
  {
  }

  /** A load takes over what was loaded before, and at most one value from its cell. */
  lemma NextLoads(addresses: seq<string>, s: State, e: Event, i: nat)
    requires Shaped(addresses, s)
    ensures var r, r' := s.reader, Next(addresses, s, e).reader;
      && (i < |r'.first| ==> i < |addresses| && r'.first[i] == if i < |r.first| then r.first[i] else s.cells[i])
      && (i < |r'.second| ==> i < |addresses| && r'.second[i] == if i < |r.second| then r.second[i] else s.cells[i])
  {
  }

  /** Everything loaded was in its cell while the request was being served. */
  lemma {:induction false} LoadedWasHeld(addresses: seq<string>, cells: seq<Healthiness>, es: seq<Event>, i: nat)
    requires |cells| == |addresses|
    ensures var r := After(addresses, cells, es).reader;
      && (i < |r.first| ==> HeldDuring(addresses, cells, es, i, r.first[i]))
      && (i < |r.second| ==> HeldDuring(addresses, cells, es, i, r.second[i]))
  {
    if es != [] && i < |addresses| {
      var g := es[..|es| - 1];
      var before := After(addresses, cells, g);
      LoadedWasHeld(addresses, cells, g, i);
      NextLoads(addresses, before, es[|es| - 1], i);
      HeldLast(addresses, cells, es, i);
      if i < |before.reader.first| { HeldLonger(addresses, cells, es, i, before.reader.first[i]); }
      if i < |before.reader.second| { HeldLonger(addresses, cells, es, i, before.reader.second[i]); }
    }
  }

  lemma {:induction false} HavingExactly(addresses: seq<string>, loaded: seq<Healthiness>, slow: bool, a: string)
    requires |loaded| <= |addresses|
    ensures a in Having(addresses, loaded, slow) <==>
      exists i :: 0 <= i < |loaded| && addresses[i] == a && (if slow then loaded[i].Slow? else loaded[i].Healthy?)
  {
    if loaded != [] {
      HavingExactly(addresses, loaded[..|loaded| - 1], slow, a);
    }
  }

  /** `out` are the addresses at the positions `ps` that were loaded with the class, in order. */
  ghost predicate LoadedAt(
    ps: seq<nat>, addresses: seq<string>, loaded: seq<Healthiness>, slow: bool, out: seq<string>)
  {
    && PositionsOf(ps, LoadedAs(loaded, slow)) && |out| == |ps|
    && forall j :: 0 <= j < |ps| ==> ps[j] < |addresses| && out[j] == addresses[ps[j]]
  }

  /**
   The addresses come in configuration order, one per position that was loaded with the class, so
   an address configured twice counts twice.
   */
  lemma {:induction false} HavingInOrder(addresses: seq<string>, loaded: seq<Healthiness>, slow: bool)
    returns (ps: seq<nat>)
    requires |loaded| <= |addresses|
    ensures LoadedAt(ps, addresses, loaded, slow, Having(addresses, loaded, slow))
  {
    ps := [];
    if loaded != [] {
      var g, last := loaded[..|loaded| - 1], loaded[|loaded| - 1];
      ps := HavingInOrder(addresses, g, slow);
      assert loaded == g + [last];
      OneMoreLoaded(ps, addresses, g, slow, Having(addresses, g, slow), last);
      if if slow then last.Slow? else last.Healthy? { ps := ps + [|g|]; }
    }
  }

  lemma OneMoreLoaded(
    ps: seq<nat>, addresses: seq<string>, g: seq<Healthiness>, slow: bool, out: seq<string>, last: Healthiness)
    requires LoadedAt(ps, addresses, g, slow, out) && |g| < |addresses|
    ensures if (if slow then last.Slow? else last.Healthy?)
      then LoadedAt(ps + [|g|], addresses, g + [last], slow, out + [addresses[|g|]])
      else LoadedAt(ps, addresses, g + [last], slow, out)
  {
    var flag := if slow then last.Slow? else last.Healthy?;
    assert LoadedAs(g + [last], slow) == LoadedAs(g, slow) + [flag];
    OneMorePosition(ps, LoadedAs(g, slow), flag);
  }

  function LoadedAs(loaded: seq<Healthiness>, slow: bool): seq<bool> {
    seq(|loaded|, i requires 0 <= i < |loaded| => if slow then loaded[i].Slow? else loaded[i].Healthy?)
  }

  lemma {:induction false} HavingNothing(addresses: seq<string>, loaded: seq<Healthiness>, slow: bool)
    requires |loaded| <= |addresses|
    ensures Having(addresses, loaded, slow) == [] <==>
      forall i :: 0 <= i < |loaded| ==> !(if slow then loaded[i].Slow? else loaded[i].Healthy?)
  {
    if loaded != [] {
      HavingNothing(addresses, loaded[..|loaded| - 1], slow);
    }
  }

  /**
   Under every interleaving with health stores, a working address was observed as healthy or slow
   while the request was being served.
   */
  lemma WorkingWasObserved(addresses: seq<string>, cells: seq<Healthiness>, es: seq<Event>, a: string)
    requires |cells| == |addresses|
    requires a in Working(addresses, After(addresses, cells, es).reader)
    ensures exists i, h: Healthiness ::
      0 <= i < |addresses| && addresses[i] == a && !h.Unresponsive? && HeldDuring(addresses, cells, es, i, h)
  {
    var r := After(addresses, cells, es).reader;
    var slow := NeedsSecond(addresses, r);
    var loaded := if slow then r.second else r.first;
    HavingExactly(addresses, loaded, slow, a);
    var i :| 0 <= i < |loaded| && addresses[i] == a && (if slow then loaded[i].Slow? else loaded[i].Healthy?);
    LoadedWasHeld(addresses, cells, es, i);
  }

  /** When nothing works: no value of the first pass was healthy and none of the second slow. */
  lemma NothingWorks(addresses: seq<string>, r: Reader)
    requires |r.first| == |addresses| && |r.second| <= |addresses| && Finished(addresses, r)
    ensures Working(addresses, r) == [] <==>
      && (forall i :: 0 <= i < |addresses| ==> !r.first[i].Healthy?)
      && (forall i :: 0 <= i < |r.second| ==> !r.second[i].Slow?)
      && |r.second| == |addresses|
  {
    HavingNothing(addresses, r.first, false);
    HavingNothing(addresses, r.second, true);
  }

  /** No store happens: every load reads the initial value. */
  lemma {:induction false} QuietLoads(addresses: seq<string>, cells: seq<Healthiness>, es: seq<Event>)
    requires |cells| == |addresses| && forall i :: 0 <= i < |es| ==> es[i].Load?
    ensures var s := After(addresses, cells, es);
      s.cells == cells && s.reader.first <= cells && s.reader.second <= cells
  {
    if es != [] {
      QuietLoads(addresses, cells, es[..|es| - 1]);
    }
  }

  /**
   Without stores during the request: the healthy addresses work; if there are none, the slow
   ones; nothing works exactly when every server is unresponsive.
   */
  lemma QuietRequest(addresses: seq<string>, cells: seq<Healthiness>, es: seq<Event>, a: string)
    requires |cells| == |addresses| && forall i :: 0 <= i < |es| ==> es[i].Load?
    requires Finished(addresses, After(addresses, cells, es).reader)
    ensures var working := Working(addresses, After(addresses, cells, es).reader);
      && (working == [] <==> forall i :: 0 <= i < |cells| ==> cells[i].Unresponsive?)
      && (a in working <==> exists i ::
            && 0 <= i < |cells| && addresses[i] == a
            && (cells[i].Healthy? || (cells[i].Slow? && forall j :: 0 <= j < |cells| ==> !cells[j].Healthy?)))
  {
    var r := After(addresses, cells, es).reader;
    QuietLoads(addresses, cells, es);
    assert r.first == cells;
    HavingNothing(addresses, cells, false);
    HavingExactly(addresses, cells, false, a);
    if NeedsSecond(addresses, r) {
      assert r.second == cells;
      HavingNothing(addresses, cells, true);
      HavingExactly(addresses, cells, true, a);
    }
  }

  /**
   What the documentation promises of the health classes, for a request served after a round of
   checks: servers that answered with success in time are used; the slower ones only if there is
   none of those; nothing works exactly when no server answered with success.
   */
  lemma ProbesDecide(
    addresses: seq<string>, cells: seq<Healthiness>, probes: seq<Probe>, slowThreshold: int, es: seq<Event>, a: string)
    requires |cells| == |addresses| == |probes| && forall i :: 0 <= i < |es| ==> es[i].Load?
    requires forall i :: 0 <= i < |probes| ==> cells[i] == Classify(probes[i], slowThreshold)
    requires Finished(addresses, After(addresses, cells, es).reader)
    ensures var working := Working(addresses, After(addresses, cells, es).reader);
      && (working == [] <==> forall i :: 0 <= i < |probes| ==> !Succeeded(probes[i]))
      && (a in working <==> exists i ::
            && 0 <= i < |probes| && addresses[i] == a && Succeeded(probes[i])
            && (probes[i].millis > slowThreshold ==>
                  forall j :: 0 <= j < |probes| && Succeeded(probes[j]) ==> probes[j].millis > slowThreshold))
  {
    QuietRequest(addresses, cells, es, a);
    assert forall i :: 0 <= i < |probes| ==> (cells[i].Unresponsive? <==> !Succeeded(probes[i]));
    assert forall i :: 0 <= i < |probes| ==>
      (cells[i].Healthy? <==> Succeeded(probes[i]) && probes[i].millis <= slowThreshold);
  }

  /** A slow server that recovers between the two passes. */
  const RECOVERY: seq<Event> := [Load, Store(0, Healthy), Load]

  function RecoveryState(t: nat): State
    requires t <= 3
  {
    if t == 0 then State([Slow(400)], Reader([], []))
    else if t == 1 then State([Slow(400)], Reader([Slow(400)], []))
    else if t == 2 then State([Healthy], Reader([Slow(400)], []))
    else State([Healthy], Reader([Slow(400)], [Healthy]))
  }

  lemma RecoveryStep(t: nat)
    requires t < 3
    ensures Shaped(["a"], RecoveryState(t))
    ensures Next(["a"], RecoveryState(t), RECOVERY[t]) == RecoveryState(t + 1)
  {
    HavingNothing(["a"], [Slow(400)], false);
  }

  lemma {:induction false} RecoveryStates(t: nat)
    requires t <= 3
    ensures After(["a"], [Slow(400)], RECOVERY[..t]) == RecoveryState(t)
  {
    if t > 0 {
      RecoveryStates(t - 1);
      RecoveryStep(t - 1);
      assert RECOVERY[..t][..t - 1] == RECOVERY[..t - 1];
    }
  }

  /** The value of cell `i` just before event `t`. */
  function CellAt(addresses: seq<string>, cells: seq<Healthiness>, es: seq<Event>, t: nat, i: nat): Healthiness
    requires |cells| == |addresses| && i < |addresses| && t <= |es|
  {
    After(addresses, cells, es[..t]).cells[i]
  }

  /** No server is unresponsive at any moment of the request. */
  ghost predicate NeverUnresponsive(addresses: seq<string>, cells: seq<Healthiness>, es: seq<Event>)
    requires |cells| == |addresses|
  {
    forall t, i :: 0 <= t < |es| && 0 <= i < |addresses| ==> !CellAt(addresses, cells, es, t, i).Unresponsive?
  }

  /** The second pass starts only after the first is complete. */
  lemma {:induction false} SecondNeedsFirst(addresses: seq<string>, cells: seq<Healthiness>, es: seq<Event>)
    requires |cells| == |addresses|
    ensures var r := After(addresses, cells, es).reader; r.second != [] ==> |r.first| == |addresses|
  {
    if es != [] { SecondNeedsFirst(addresses, cells, es[..|es| - 1]); }
  }

  lemma StartedSecond(addresses: seq<string>, s: State, e: Event, i: nat)
    requires Shaped(addresses, s) && |s.reader.second| <= i < |Next(addresses, s, e).reader.second|
    ensures |s.reader.first| == |addresses|
    ensures Next(addresses, s, e).reader.first == s.reader.first
  {
  }

  /** What the second pass loads of a cell was there after what the first pass loaded. */
  lemma {:induction false} SecondAfterFirst(addresses: seq<string>, cells: seq<Healthiness>, es: seq<Event>, i: nat)
    returns (t1: nat, t2: nat)
    requires |cells| == |addresses| && i < |After(addresses, cells, es).reader.second|
    ensures var r := After(addresses, cells, es).reader;
      && t1 < t2 < |es| && i < |r.first|
      && CellAt(addresses, cells, es, t1, i) == r.first[i] && CellAt(addresses, cells, es, t2, i) == r.second[i]
  {
    var g := es[..|es| - 1];
    var before := After(addresses, cells, g);
    assert es[..|g|] == g;
    NextLoads(addresses, before, es[|g|], i);
    SecondNeedsFirst(addresses, cells, es);
    SecondNeedsFirst(addresses, cells, g);
    if i < |before.reader.second| {
      t1, t2 := SecondAfterFirst(addresses, cells, g, i);
      assert es[..t1] == g[..t1] && es[..t2] == g[..t2];
    } else {
      assert i < |before.reader.first| by { StartedSecond(addresses, before, es[|g|], i); }
      LoadedWasHeld(addresses, cells, g, i);
      t1 :| 0 <= t1 < |g| && After(addresses, cells, g[..t1]).cells[i] == before.reader.first[i];
      t2 := |g|;
      assert es[..t1] == g[..t1];
    }
  }

  lemma LoadedResponsive(addresses: seq<string>, cells: seq<Healthiness>, es: seq<Event>, i: nat)
    requires |cells| == |addresses| && NeverUnresponsive(addresses, cells, es)
    ensures var r := After(addresses, cells, es).reader;
      && (i < |r.first| ==> !r.first[i].Unresponsive?)
      && (i < |r.second| ==> !r.second[i].Unresponsive?)
  {
    var r := After(addresses, cells, es).reader;
    LoadedWasHeld(addresses, cells, es, i);
    if i < |r.first| {
      var t :| 0 <= t < |es| && After(addresses, cells, es[..t]).cells[i] == r.first[i];
      assert !CellAt(addresses, cells, es, t, i).Unresponsive?;
    }
    if i < |r.second| {
      var t :| 0 <= t < |es| && After(addresses, cells, es[..t]).cells[i] == r.second[i];
      assert !CellAt(addresses, cells, es, t, i).Unresponsive?;
    }
  }

  /**
   A request during which no server is ever unresponsive finds nothing to work with exactly if
   both passes ran and every server was loaded as slow by the first and healthy by the second.
   */
  lemma MissedExactly(addresses: seq<string>, cells: seq<Healthiness>, es: seq<Event>)
    requires |cells| == |addresses| && addresses != [] && NeverUnresponsive(addresses, cells, es)
    requires Finished(addresses, After(addresses, cells, es).reader)
    ensures var r := After(addresses, cells, es).reader;
      Working(addresses, r) == [] <==>
      && |r.second| == |addresses|
      && forall i :: 0 <= i < |addresses| ==> r.first[i].Slow? && r.second[i].Healthy?
  {
    var r := After(addresses, cells, es).reader;
    forall i | 0 <= i < |addresses|
      ensures !r.first[i].Unresponsive? && (i < |r.second| ==> !r.second[i].Unresponsive?)
    {
      LoadedResponsive(addresses, cells, es, i);
    }
    NothingWorks(addresses, r);
    assert |r.second| == |addresses| ==> !r.second[0].Unresponsive?;
  }

  /** Then every server recovered while the request was being served: slow first, healthy later. */
  lemma MissedMeansRecovery(addresses: seq<string>, cells: seq<Healthiness>, es: seq<Event>, i: nat)
    returns (t1: nat, t2: nat)
    requires |cells| == |addresses| && i < |addresses| && NeverUnresponsive(addresses, cells, es)
    requires Finished(addresses, After(addresses, cells, es).reader)
    requires Working(addresses, After(addresses, cells, es).reader) == []
    ensures t1 < t2 < |es|
    ensures CellAt(addresses, cells, es, t1, i).Slow? && CellAt(addresses, cells, es, t2, i).Healthy?
  {
    MissedExactly(addresses, cells, es);
    t1, t2 := SecondAfterFirst(addresses, cells, es, i);
  }

  /** A server that is healthy throughout, or slow throughout, keeps a request from failing. */
  lemma SteadyServerFound(addresses: seq<string>, cells: seq<Healthiness>, es: seq<Event>, i: nat)
    requires |cells| == |addresses| && i < |addresses|
    requires Finished(addresses, After(addresses, cells, es).reader)
    requires
      || (forall t :: 0 <= t < |es| ==> CellAt(addresses, cells, es, t, i).Healthy?)
      || (forall t :: 0 <= t < |es| ==> CellAt(addresses, cells, es, t, i).Slow?)
    ensures Working(addresses, After(addresses, cells, es).reader) != []
  {
    var r := After(addresses, cells, es).reader;
    NothingWorks(addresses, r);
    LoadedWasHeld(addresses, cells, es, i);
    var t :| 0 <= t < |es| && After(addresses, cells, es[..t]).cells[i] == r.first[i];
    assert CellAt(addresses, cells, es, t, i) == r.first[i];
    if i < |r.second| {
      var u :| 0 <= u < |es| && After(addresses, cells, es[..u]).cells[i] == r.second[i];
      assert CellAt(addresses, cells, es, u, i) == r.second[i];
    }
  }

  /**
   With stores in between, a request can find nothing to work with although its only server was
   healthy or slow at every moment.
   */
  lemma RecoveryMissed()
    ensures var s := After(["a"], [Slow(400)], RECOVERY);
      Finished(["a"], s.reader) && Working(["a"], s.reader) == []
    ensures forall t :: 0 <= t <= |RECOVERY| ==> !After(["a"], [Slow(400)], RECOVERY[..t]).cells[0].Unresponsive?
  {
    forall t | 0 <= t <= |RECOVERY|
      ensures !After(["a"], [Slow(400)], RECOVERY[..t]).cells[0].Unresponsive?
    {
      RecoveryStates(t);
    }
    RecoveryStates(3);
    assert RECOVERY[..3] == RECOVERY;
    RecoveryEnd();
  }

  lemma RecoveryEnd()
    ensures var r := RecoveryState(3).reader; Finished(["a"], r) && Working(["a"], r) == []
  {
    HavingNothing(["a"], [Slow(400)], false);
    HavingNothing(["a"], [Healthy], true);
  }

  // ---------------------------------------------------------------- the whole path

  /** A forwarded request has its forwarder, and the pool's strategy as the selection left it. */
  datatype Outcome =
    | NotFound
    | BadGateway
    | Panic
    | Forwarded(forwarder: Balancing.Forwarder, strategy: Balancing.Strategy)

  /** `MainService::call` from the choice of the pool on, with the health values it loaded. */
  function Route(
    lib: MatcherParser.Library, env: Balancing.Env, pools: seq<Pool>, request: MatcherParser.Request,
    cookies: Option<string>, scheme: Scheme, reader: Reader): Outcome
    requires var pool := PoolByReq(lib, pools, request, scheme);
      pool.Some? ==> |reader.first| <= |pool.value.addresses| && |reader.second| <= |pool.value.addresses|
  {
    var pool := PoolByReq(lib, pools, request, scheme);
    if pool.None? then NotFound
    else
      var working := Working(pool.value.addresses, reader);
      if working == [] then BadGateway
      else
        var picked := Balancing.SelectBackend(env, pool.value.strategy, cookies, working);
        if picked.None? then Panic else Forwarded(picked.value.forwarder, picked.value.after)
  }

  /**
   Health-aware routing: whatever strategy the pool uses and however health changes meanwhile, a
   forwarded request goes to an address of the first eligible pool that was seen healthy or slow
   during the request.
   */
  lemma RoutedToObserved(
    lib: MatcherParser.Library, env: Balancing.Env, pools: seq<Pool>, request: MatcherParser.Request,
    cookies: Option<string>, scheme: Scheme, k: nat, cells: seq<Healthiness>, es: seq<Event>)
    requires k < |pools| && Eligible(lib, pools[k], request, scheme)
    requires forall j :: 0 <= j < k ==> !Eligible(lib, pools[j], request, scheme)
    requires |cells| == |pools[k].addresses| && Balancing.LeastAsSpecified(env)
    ensures PoolByReq(lib, pools, request, scheme) == Some(pools[k])
    ensures var addresses := pools[k].addresses;
      var reader := After(addresses, cells, es).reader;
      var outcome := Route(lib, env, pools, request, cookies, scheme, reader);
      var working := Working(addresses, reader);
      && outcome != NotFound
      && (outcome == BadGateway <==> working == [])
      && (outcome == Panic <==>
            var s := pools[k].strategy;
            && working != []
            && Balancing.Misses(env.cookies, Balancing.Layers(s), cookies, working) == |Balancing.Layers(s)|
            && !Balancing.CoreDomain(Balancing.Core(s), working))
      && (outcome.Forwarded? ==> exists i, h: Healthiness ::
            && 0 <= i < |addresses| && addresses[i] == outcome.forwarder.address
            && !h.Unresponsive? && HeldDuring(addresses, cells, es, i, h))
  {
    FirstEligiblePool(lib, pools, request, scheme, k);
    var addresses := pools[k].addresses;
    var reader := After(addresses, cells, es).reader;
    var working := Working(addresses, reader);
    if working != [] {
      Balancing.SelectsWorking(env, pools[k].strategy, cookies, working);
      var outcome := Route(lib, env, pools, request, cookies, scheme, reader);
      if outcome.Forwarded? {
        WorkingWasObserved(addresses, cells, es, outcome.forwarder.address);
      }
    }
  }

  /** A request is answered 404 exactly if no configured pool supports its scheme and matches it. */
  lemma NotFoundExactly(
    lib: MatcherParser.Library, env: Balancing.Env, pools: seq<Pool>, request: MatcherParser.Request,
    cookies: Option<string>, scheme: Scheme, reader: Reader)
    requires var pool := PoolByReq(lib, pools, request, scheme);
      pool.Some? ==> |reader.first| <= |pool.value.addresses| && |reader.second| <= |pool.value.addresses|
    ensures Route(lib, env, pools, request, cookies, scheme, reader) == NotFound <==>
      forall j :: 0 <= j < |pools| ==> !Eligible(lib, pools[j], request, scheme)
  {
    FirstEligiblePool(lib, pools, request, scheme, 0);
  }

  /** The first eligible pool and the values loaded of its cells. */
  ghost predicate Routes(
    lib: MatcherParser.Library, pools: seq<Pool>, request: MatcherParser.Request, scheme: Scheme, k: nat,
    reader: Reader)
  {
    && k < |pools| && Eligible(lib, pools[k], request, scheme)
    && (forall j :: 0 <= j < k ==> !Eligible(lib, pools[j], request, scheme))
    && |reader.first| <= |pools[k].addresses| && |reader.second| <= |pools[k].addresses|
  }

  /**
   The strategy of the first eligible pool decides: a forwarded request goes to the address in the
   outermost sticky cookie that names a working one, and the strategy stays as it was; without such
   a cookie it goes where the core of the strategy chooses, for round robin the next position, and
   the core moves on.
   */
  lemma RoutedByStrategy(
    lib: MatcherParser.Library, env: Balancing.Env, pools: seq<Pool>, request: MatcherParser.Request,
    cookies: Option<string>, scheme: Scheme, k: nat, reader: Reader)
    requires Routes(lib, pools, request, scheme, k, reader) && Balancing.LeastAsSpecified(env)
    ensures PoolByReq(lib, pools, request, scheme) == Some(pools[k])
    ensures var s, working := pools[k].strategy, Working(pools[k].addresses, reader);
      var hits := Balancing.Layers(s)[Balancing.Misses(env.cookies, Balancing.Layers(s), cookies, working)..];
      match Route(lib, env, pools, request, cookies, scheme, reader)
      case NotFound => false
      case BadGateway => working == []
      case Panic => working != [] && hits == [] && !Balancing.CoreDomain(Balancing.Core(s), working)
      case Forwarded(f, after) =>
        && working != [] && f.address in working
        && if hits != [] then
             Some(f.address) == Balancing.StickyValue(env.cookies, hits[0].name, cookies) && after == s
           else
             && Balancing.Layers(after) == Balancing.Layers(s)
             && Balancing.CoreChooses(env, Balancing.Core(s), working, f.address, Balancing.Core(after))
  {
    FirstEligiblePool(lib, pools, request, scheme, k);
    var working := Working(pools[k].addresses, reader);
    if working != [] {
      Balancing.SelectsWorking(env, pools[k].strategy, cookies, working);
      Balancing.SelectionExact(env, pools[k].strategy, cookies, working);
    }
  }

  /**
   `forward_request_to_backend`: the forwarder is a middleware around the whole chain, at whose
   end is the backend of its address.
   */
  function ForwardToBackend(
    backends: string -> MiddlewareChains.Backend, f: Balancing.Forwarder, chain: MiddlewareChains.Chain,
    message: MiddlewareChains.Request): MiddlewareChains.Exchange
  {
    var outer := MiddlewareChains.Custom(r => MiddlewareChains.Pass(r), f.mapper);
    MiddlewareChains.ForwardRequest(backends(f.address), outer, chain, message)
  }

  lemma ForwarderWraps(
    backends: string -> MiddlewareChains.Backend, f: Balancing.Forwarder, chain: MiddlewareChains.Chain,
    message: MiddlewareChains.Request)
    ensures var inner := MiddlewareChains.ForwardChain(backends(f.address), chain, message);
      ForwardToBackend(backends, f, chain, message) == inner.(response := f.mapper(inner.response))
  {
  }

  /** The mapper of a routed forwarder adds the cookies of the layers that missed, and nothing else. */
  lemma RoutedMapper(
    lib: MatcherParser.Library, env: Balancing.Env, pools: seq<Pool>, request: MatcherParser.Request,
    cookies: Option<string>, scheme: Scheme, k: nat, reader: Reader, r: MiddlewareChains.Response)
    requires Routes(lib, pools, request, scheme, k, reader)
    requires PoolByReq(lib, pools, request, scheme) == Some(pools[k])
    requires Route(lib, env, pools, request, cookies, scheme, reader).Forwarded?
    ensures var f := Route(lib, env, pools, request, cookies, scheme, reader).forwarder;
      f.mapper(r) == r.(setCookies := r.setCookies + MissedCookies(env, pools[k], cookies, reader, f.address))
  {
    Balancing.NestedCookies(env, pools[k].strategy, cookies, Working(pools[k].addresses, reader), r);
  }

  /** One cookie for each sticky layer outside the first hit, inner layers first. */
  function MissedCookies(
    env: Balancing.Env, pool: Pool, cookies: Option<string>, reader: Reader, address: string): seq<string>
    requires |reader.first| <= |pool.addresses| && |reader.second| <= |pool.addresses|
  {
    var layers, working := Balancing.Layers(pool.strategy), Working(pool.addresses, reader);
    Balancing.NewCookies(env.cookies, layers[..Balancing.Misses(env.cookies, layers, cookies, working)], address)
  }

  /**
   End to end: for every nest of strategies around every shipped chain, a forwarded request gets
   the response of the routed address through the pool's chain. It has consistent content, the
   status and headers of its origin, and the origin's cookies followed by one per sticky layer that
   missed, inner layers first; only that address is contacted, with the request itself, once at most.
   */
  lemma ClientResponse(
    wire: MiddlewareChains.Body -> nat, backends: string -> MiddlewareChains.Backend, message: MiddlewareChains.Request,
    lib: MatcherParser.Library, env: Balancing.Env, pools: seq<Pool>, request: MatcherParser.Request,
    cookies: Option<string>, scheme: Scheme, k: nat, reader: Reader)
    requires Routes(lib, pools, request, scheme, k, reader)
    requires MiddlewareChains.Shipped(MiddlewareChains.ToSeq(pools[k].chain))
    ensures PoolByReq(lib, pools, request, scheme) == Some(pools[k])
    ensures var outcome := Route(lib, env, pools, request, cookies, scheme, reader);
      outcome.Forwarded?
      && MiddlewareChains.Consistent(wire, MiddlewareChains.Contact(backends(outcome.forwarder.address), message)) ==>
        var f := outcome.forwarder;
        var origin := MiddlewareChains.Origin(
          backends(f.address), MiddlewareChains.Descend(MiddlewareChains.ToSeq(pools[k].chain), message));
        var out := ForwardToBackend(backends, f, pools[k].chain, message);
        && MiddlewareChains.Consistent(wire, out.response)
        && out.response.status == origin.status && out.response.otherHeaders == origin.otherHeaders
        && out.response.setCookies == origin.setCookies + MissedCookies(env, pools[k], cookies, reader, f.address)
        && out.sent in {[], [message]}
  {
    FirstEligiblePool(lib, pools, request, scheme, k);
    var outcome := Route(lib, env, pools, request, cookies, scheme, reader);
    if outcome.Forwarded?
      && MiddlewareChains.Consistent(wire, MiddlewareChains.Contact(backends(outcome.forwarder.address), message))
    {
      var f := outcome.forwarder;
      var chain, backend := pools[k].chain, backends(f.address);
      var inner := MiddlewareChains.ForwardChain(backend, chain, message);
      ForwarderWraps(backends, f, chain, message);
      MiddlewareChains.ContentConsistent(wire, backend, chain, message);
      MiddlewareChains.OriginKept(backend, chain, message);
      MiddlewareChains.SentAtMostOnce(backend, chain, message);
      RoutedMapper(lib, env, pools, request, cookies, scheme, k, reader, inner.response);
    }
  }
}
