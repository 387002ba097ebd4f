/**
 Least-connection balancing (src/load_balancing/least_connection.rs) together with the stream
 wrapper that feeds it (src/http_client.rs): a stream reports `on_tcp_open` when its connection
 is established and `on_tcp_close` when it is dropped.

 Counters are `usize`; their arithmetic is written modulo 2^64 and shown never to wrap.
 */
module LeastConnections {
  import opened Wrappers

  const USIZE_VALUES: nat := 0x1_0000_0000_0000_0000

  datatype Uri = Uri(authority: Option<string>)

  type Counts = map<string, nat>

  function CountOr(counts: Counts, a: string, default: nat): nat {
    if a in counts then counts[a] else default
  }

  function Opened(counts: Counts, remote: Uri): Counts {
    match remote.authority
    case None => counts
    case Some(a) => counts[a := (CountOr(counts, a, 0) + 1) % USIZE_VALUES]
  }

  function Closed(counts: Counts, remote: Uri): Counts {
    match remote.authority
    case None => counts
    case Some(a) => counts[a := (CountOr(counts, a, 1) - 1) % USIZE_VALUES]
  }

  // ---------------------------------------------------------------- live streams

  /** The streams that were opened and not dropped, by an identity of their own. */
  type Streams = map<nat, Uri>

  ghost function StreamsTo(live: Streams, a: string): set<nat> {
    set id | id in live && live[id].authority == Some(a)
  }

  ghost function Load(live: Streams, a: string): nat {
    |StreamsTo(live, a)|
  }

  ghost function Bearing(live: Streams): set<nat> {
    set id | id in live && live[id].authority.Some?
  }

  ghost function Total(counts: Counts): nat
    decreases |counts|
  {
    if counts == map[] then 0
    else
      var a :| a in counts;
      assert |counts - {a}| < |counts| by { assert counts.Keys == (counts - {a}).Keys + {a}; }
      counts[a] + Total(counts - {a})
  }

  lemma {:induction false} TotalSplit(counts: Counts, a: string)
    requires a in counts
    ensures Total(counts) == counts[a] + Total(counts - {a})
    decreases |counts|
  {
    var b :| b in counts && Total(counts) == counts[b] + Total(counts - {b});
    if a != b {
      assert (counts - {b}) - {a} == (counts - {a}) - {b};
      assert counts.Keys == (counts - {b}).Keys + {b};
      assert counts.Keys == (counts - {a}).Keys + {a};
      TotalSplit(counts - {b}, a);
      TotalSplit(counts - {a}, b);
    }
  }

  lemma TotalUpdate(counts: Counts, a: string, n: nat)
    ensures Total(counts[a := n]) == Total(counts) - CountOr(counts, a, 0) + n
  {
    TotalSplit(counts[a := n], a);
    assert counts[a := n] - {a} == counts - {a};
    if a in counts {
      TotalSplit(counts, a);
    } else {
      assert counts - {a} == counts;
    }
  }

  /**
   Conservation: every counter is the number of live streams to its authority, and together the
   counters account for every live stream that has an authority.
   */
  ghost predicate Conserved(counts: Counts, live: Streams) {
    |live| < USIZE_VALUES && Exact(counts, live) && Total(counts) == |Bearing(live)|
  }

  ghost predicate Exact(counts: Counts, live: Streams) {
    forall a :: CountOr(counts, a, 0) == Load(live, a)
  }

  lemma LoadAtMost(live: Streams, a: string)
    ensures Load(live, a) <= |live|
  {
    SubsetSize(StreamsTo(live, a), live.Keys);
  }

  lemma {:induction false} SubsetSize<T>(x: set<T>, y: set<T>)
    requires x <= y
    ensures |x| <= |y|
    ensures |x| == |y| ==> x == y
  {
    assert y == x + (y - x);
    if |x| == |y| { assert y - x == {}; }
  }

  /** Adding stream `id` to `target` raises the load of that authority alone. */
  lemma LoadWith(live: Streams, id: nat, target: Uri, b: string)
    requires id !in live
    ensures Load(live[id := target], b) == Load(live, b) + if target.authority == Some(b) then 1 else 0
  {
    var live' := live[id := target];
    assert StreamsTo(live', b) == StreamsTo(live, b) + if target.authority == Some(b) then {id} else {};
  }

  lemma BearingWith(live: Streams, id: nat, target: Uri)
    requires id !in live
    ensures |Bearing(live[id := target])| == |Bearing(live)| + if target.authority.Some? then 1 else 0
    ensures |live[id := target]| == |live| + 1
  {
    assert live[id := target].Keys == live.Keys + {id};
    BearingSet(live, id, target);
  }

  lemma BearingSet(live: Streams, id: nat, target: Uri)
    requires id !in live
    ensures Bearing(live[id := target]) == if target.authority.Some? then Bearing(live) + {id} else Bearing(live)
  {
  }

  lemma OpenedExact(counts: Counts, target: Uri, a: string)
    requires target.authority == Some(a) && CountOr(counts, a, 0) + 1 < 0x1_0000_0000_0000_0000
    ensures Opened(counts, target) == counts[a := CountOr(counts, a, 0) + 1]
  {
  }

  lemma ClosedExact(counts: Counts, target: Uri, a: string)
    requires target.authority == Some(a) && 0 < CountOr(counts, a, 0) < 0x1_0000_0000_0000_0000
    ensures Closed(counts, target) == counts[a := CountOr(counts, a, 0) - 1]
  {
  }

  lemma OpenExact(counts: Counts, live: Streams, id: nat, target: Uri)
    requires Exact(counts, live) && id !in live && |live| + 1 < USIZE_VALUES
    ensures Exact(Opened(counts, target), live[id := target])
  {
    forall b ensures CountOr(Opened(counts, target), b, 0) == Load(live[id := target], b) {
      LoadWith(live, id, target, b);
      LoadAtMost(live, b);
      assert CountOr(counts, b, 0) == Load(live, b);
      if target.authority == Some(b) { OpenedExact(counts, target, b); }
    }
  }

  lemma OpenTotal(counts: Counts, target: Uri, a: string)
    requires target.authority == Some(a) && CountOr(counts, a, 0) + 1 < USIZE_VALUES
    ensures Total(Opened(counts, target)) == Total(counts) + 1
  {
    OpenedExact(counts, target, a);
    TotalUpdate(counts, a, CountOr(counts, a, 0) + 1);
  }

  lemma OpenConserves(counts: Counts, live: Streams, id: nat, target: Uri)
    requires Conserved(counts, live) && id !in live && |live| + 1 < USIZE_VALUES
    ensures Conserved(Opened(counts, target), live[id := target])
  {
    BearingWith(live, id, target);
    OpenExact(counts, live, id, target);
    if target.authority.Some? {
      LoadAtMost(live, target.authority.value);
      OpenTotal(counts, target, target.authority.value);
    }
  }

  /** Dropping a live stream: its counter exists and is positive, so neither fallback nor underflow. */
  lemma CloseConserves(counts: Counts, live: Streams, id: nat)
    requires Conserved(counts, live) && id in live
    ensures Conserved(Closed(counts, live[id]), live - {id})
    ensures live[id].authority.Some? ==>
      live[id].authority.value in counts && counts[live[id].authority.value] > 0
  {
    var counts', live', target := Closed(counts, live[id]), live - {id}, live[id];
    assert live == live'[id := target];
    BearingWith(live', id, target);
    if target.authority.Some? {
      var a := target.authority.value;
      LoadAtMost(live, a);
      LoadWith(live', id, target, a);
      assert CountOr(counts, a, 0) == Load(live, a);
      ClosedExact(counts, target, a);
      TotalUpdate(counts, a, Load(live, a) - 1);
    }
    forall b ensures CountOr(counts', b, 0) == Load(live', b) {
      LoadWith(live', id, target, b);
      assert CountOr(counts, b, 0) == Load(live, b);
    }
  }

  // ---------------------------------------------------------------- selection, as a set of addresses

  ghost function Members(s: seq<string>): set<string> {
    set a | a in s
  }

  ghost predicate Distinct(s: seq<string>) {
    forall i, j :: 0 <= i < j < |s| ==> s[i] != s[j]
  }

  /** Addresses without an entry are preferred as long as there are more addresses than entries. */
  predicate PrefersUnseen(counts: Counts, working: seq<string>) {
    |counts| == 0 || |working| > |counts|
  }

  ghost function Unseen(counts: Counts, working: seq<string>): set<string> {
    set a | a in working && a !in counts
  }

  ghost function MinKeys(counts: Counts): set<string> {
    set a | a in counts && forall b :: b in counts ==> counts[a] <= counts[b]
  }

  ghost function Candidates(counts: Counts, working: seq<string>): set<string> {
    if PrefersUnseen(counts, working) then Unseen(counts, working) else MinKeys(counts)
  }

  /** When selection returns at all: otherwise it draws from nothing or unwraps a missing index. */
  ghost predicate Selectable(counts: Counts, working: seq<string>) {
    Candidates(counts, working) != {} && Candidates(counts, working) <= Members(working)
  }

  lemma {:induction false} DistinctSize(s: seq<string>)
    requires Distinct(s)
    ensures |Members(s)| == |s|
  {
    if s != [] {
      var last := s[|s| - 1];
      DistinctSize(s[..|s| - 1]);
      assert Members(s) == Members(s[..|s| - 1]) + {last};
    }
  }

  lemma {:induction false} MinKeyExists(counts: Counts) returns (a: string)
    requires counts != map[]
    ensures a in MinKeys(counts)
    decreases |counts|
  {
    a :| a in counts;
    if counts - {a} != map[] {
      assert counts.Keys == (counts - {a}).Keys + {a};
      var b := MinKeyExists(counts - {a});
      assert forall c :: c in counts ==> c == a || c in counts - {a};
      if counts[b] < counts[a] { a := b; }
    } else {
      assert forall c :: c in counts ==> c == a || c in counts - {a};
    }
  }

  /**
   The exact domain of selection on every list of addresses: as long as unseen addresses are
   preferred, one of them must be there, which the pigeonhole guarantees on a nonempty list without
   repetition; otherwise every least-loaded key must be a working address.
   */
  lemma SelectionDomain(counts: Counts, working: seq<string>)
    ensures Selectable(counts, working) <==>
      if PrefersUnseen(counts, working) then !(Members(working) <= counts.Keys)
      else MinKeys(counts) <= Members(working)
    ensures Distinct(working) && working != [] && PrefersUnseen(counts, working) ==>
      !(Members(working) <= counts.Keys)
  {
    if PrefersUnseen(counts, working) {
      if Distinct(working) && working != [] {
        DistinctSize(working);
        if Members(working) <= counts.Keys { SubsetSize(Members(working), counts.Keys); }
      }
      if a :| a in Members(working) && a !in counts {
        assert a in Unseen(counts, working);
      }
    } else {
      var a := MinKeyExists(counts);
    }
  }

  // ---------------------------------------------------------------- whole runs

  datatype State = State(counts: Counts, live: Streams, chosen: set<string>)

  datatype Event =
    | Select(address: string, working: seq<string>)
    | Connect(id: nat, target: Uri)
    | ConnectFailed(target: Uri)
    | Drop(id: nat)

  const START := State(map[], map[], {})

  function Next(s: State, e: Event): State {
    match e
    case Select(a, _) => s.(chosen := s.chosen + {a})
    case Connect(id, target) => s.(counts := Opened(s.counts, target), live := s.live[id := target])
    case ConnectFailed(_) => s
    case Drop(id) =>
      if id in s.live then s.(counts := Closed(s.counts, s.live[id]), live := s.live - {id}) else s
  }

  /**
   Selection sees whatever part of the pool works at that moment. Connections are opened only to
   addresses selected before, under a fresh identity, and there are never 2^64 of them at once.
   */
  ghost predicate Enabled(pool: seq<string>, s: State, e: Event) {
    match e
    case Select(a, working) =>
      Members(working) <= Members(pool) && Selectable(s.counts, working) && a in Candidates(s.counts, working)
    case Connect(id, target) =>
      && id !in s.live && |s.live| + 1 < USIZE_VALUES
      && (target.authority.Some? ==> target.authority.value in s.chosen)
    case ConnectFailed(_) => true
    case Drop(id) => id in s.live
  }

  function After(es: seq<Event>): State {
    if es == [] then START else Next(After(es[..|es| - 1]), es[|es| - 1])
  }

  ghost predicate IsRun(pool: seq<string>, es: seq<Event>) {
    es == [] || (IsRun(pool, es[..|es| - 1]) && Enabled(pool, After(es[..|es| - 1]), es[|es| - 1]))
  }

  /** In every reachable state the counters are exact and only pool addresses have one. */
  lemma {:induction false} RunsConserve(pool: seq<string>, es: seq<Event>)
    requires IsRun(pool, es)
    ensures Conserved(After(es).counts, After(es).live)
    ensures After(es).counts.Keys <= After(es).chosen <= Members(pool)
  {
    if es == [] {
      forall a ensures Load(START.live, a) == 0 { assert StreamsTo(START.live, a) == {}; }
      assert Bearing(START.live) == {};
    } else {
      var s, e := After(es[..|es| - 1]), es[|es| - 1];
      RunsConserve(pool, es[..|es| - 1]);
      match e
      case Connect(id, target) => OpenConserves(s.counts, s.live, id, target);
      case Drop(id) => CloseConserves(s.counts, s.live, id);
      case _ =>
    }
  }

  /** The addresses that no other of them undercuts in live streams. */
  ghost function LeastLoaded(live: Streams, working: seq<string>): set<string> {
    set a | a in working && forall b :: b in working ==> Load(live, a) <= Load(live, b)
  }

  lemma {:induction false} RepeatedSize(s: seq<string>)
    ensures |Members(s)| <= |s|
    ensures |Members(s)| == |s| ==> Distinct(s)
  {
    if s != [] {
      var g, last := s[..|s| - 1], s[|s| - 1];
      RepeatedSize(g);
      assert Members(s) == Members(g) + {last};
      if last in g { assert Members(s) == Members(g); }
    }
  }

  /**
   Whole-run correctness: under every interleaving of selection on any working addresses,
   connection and closing, selection on the full pool picks an address with the fewest live
   streams. It never fails on distinct addresses; if the configuration repeats one, it fails
   exactly once every address has a counter.
   */
  lemma SelectsLeastLoaded(pool: seq<string>, es: seq<Event>)
    requires pool != [] && IsRun(pool, es)
    ensures Selectable(After(es).counts, pool) <==> Distinct(pool) || After(es).counts.Keys != Members(pool)
    ensures Selectable(After(es).counts, pool) ==>
      Candidates(After(es).counts, pool) <= LeastLoaded(After(es).live, pool)
  {
    var counts := After(es).counts;
    RunsConserve(pool, es);
    RepeatedSize(pool);
    SubsetSize(counts.Keys, Members(pool));
    SelectionDomain(counts, pool);
    assert !PrefersUnseen(counts, pool) ==> counts.Keys == Members(pool);
    if Selectable(counts, pool) { LeastLoadedExactly(pool, es, pool); }
  }

  /** The least-loaded addresses, when some working address has no counter. */
  lemma IdleAreLeast(counts: Counts, live: Streams, working: seq<string>, u: string)
    requires Exact(counts, live) && u in Unseen(counts, working)
    ensures forall a :: a in LeastLoaded(live, working) <==> a in working && CountOr(counts, a, 0) == 0
  {
    assert CountOr(counts, u, 0) == Load(live, u) == 0;
    forall a ensures a in LeastLoaded(live, working) <==> a in working && CountOr(counts, a, 0) == 0 {
      assert CountOr(counts, a, 0) == Load(live, a);
    }
  }

  /** The least-loaded addresses, when all have a counter and no smaller one is elsewhere. */
  lemma MinKeysAreLeast(counts: Counts, live: Streams, working: seq<string>)
    requires Exact(counts, live) && counts != map[]
    requires MinKeys(counts) <= Members(working) <= counts.Keys
    ensures LeastLoaded(live, working) == MinKeys(counts)
  {
    var m := MinKeyExists(counts);
    assert m in working;
    forall a | a in working ensures a in LeastLoaded(live, working) <==> a in MinKeys(counts) {
      assert forall b :: b in working ==> CountOr(counts, b, 0) == Load(live, b) == counts[b];
    }
    forall a | a in MinKeys(counts) ensures a in working { }
  }

  /**
   Exactly when the pick is least loaded among whatever addresses work: there are more of them
   than counters, or all of them have a counter, or some counter is zero. Otherwise a busy server
   is preferred to one never used.
   */
  lemma LeastLoadedExactly(pool: seq<string>, es: seq<Event>, working: seq<string>)
    requires IsRun(pool, es) && Selectable(After(es).counts, working)
    ensures var s := After(es);
      Candidates(s.counts, working) <= LeastLoaded(s.live, working) <==>
      || |working| > |s.counts|
      || Members(working) <= s.counts.Keys
      || exists a :: a in s.counts && s.counts[a] == 0
  {
    var s := After(es);
    RunsConserve(pool, es);
    if PrefersUnseen(s.counts, working) {
      var u :| u in Unseen(s.counts, working);
      IdleAreLeast(s.counts, s.live, working, u);
    } else if Members(working) <= s.counts.Keys {
      MinKeysAreLeast(s.counts, s.live, working);
    } else {
      var u :| u in Members(working) && u !in s.counts;
      IdleAreLeast(s.counts, s.live, working, u);
      var m := MinKeyExists(s.counts);
      assert m in Candidates(s.counts, working);
    }
  }

  /**
   All least-loaded addresses are drawn from, and no others, exactly if no working address that
   became idle competes with unseen ones, and no unseen one with counted ones.
   */
  lemma TiesDrawnExactly(pool: seq<string>, es: seq<Event>, working: seq<string>)
    requires IsRun(pool, es) && Selectable(After(es).counts, working)
    ensures var s := After(es);
      Candidates(s.counts, working) == LeastLoaded(s.live, working) <==>
      if PrefersUnseen(s.counts, working)
      then forall a :: a in working && a in s.counts ==> s.counts[a] > 0
      else Members(working) <= s.counts.Keys
  {
    var s := After(es);
    RunsConserve(pool, es);
    if PrefersUnseen(s.counts, working) {
      var u :| u in Unseen(s.counts, working);
      IdleAreLeast(s.counts, s.live, working, u);
    } else if Members(working) <= s.counts.Keys {
      MinKeysAreLeast(s.counts, s.live, working);
    } else {
      var u :| u in Members(working) && u !in s.counts;
      IdleAreLeast(s.counts, s.live, working, u);
      assert u in LeastLoaded(s.live, working) && u !in MinKeys(s.counts);
    }
  }

  // ---------------------------------------------------------------- reachable states that go wrong

  ghost predicate Reachable(pool: seq<string>, s: State) {
    exists es :: IsRun(pool, es) && After(es) == s
  }

  ghost predicate Step(pool: seq<string>, s: State, e: Event, s': State) {
    Enabled(pool, s, e) && Next(s, e) == s'
  }

  lemma ReachNext(pool: seq<string>, s: State, e: Event, s': State)
    requires Reachable(pool, s) && Step(pool, s, e, s')
    ensures Reachable(pool, s')
  {
    var es :| IsRun(pool, es) && After(es) == s;
    assert (es + [e])[..|es|] == es;
    assert IsRun(pool, es + [e]) && After(es + [e]) == s';
  }

  const POOL := ["a", "b", "c"]
  const A := Uri(Some("a"))
  const B := Uri(Some("b"))
  const CHOSEN_A: State := State(map[], map[], {"a"})
  const CHOSEN_AB: State := State(map[], map[], {"a", "b"})
  const OPEN_A: State := State(map["a" := 1], map[0 := A], {"a", "b"})
  const OPEN_AB: State := State(map["a" := 1, "b" := 1], map[0 := A, 1 := B], {"a", "b"})
  /** One stream to a, dropped. */
  const ONCE_A: State := State(map["a" := 0], map[], {"a", "b"})
  /** A stream each to a and b, the one to a dropped. */
  const IDLE_A: State := State(map["a" := 0, "b" := 1], map[1 := B], {"a", "b"})
  /** Two streams to a, one to b. */
  const BUSY_A: State := State(map["a" := 2, "b" := 1], map[0 := A, 1 := B, 2 := A], {"a", "b"})

  lemma SelectSteps()
    ensures Step(POOL, START, Select("a", POOL), CHOSEN_A)
    ensures Step(POOL, CHOSEN_A, Select("b", POOL), CHOSEN_AB)
  {
    assert "a" in Unseen(START.counts, POOL) && "b" in Unseen(START.counts, POOL);
  }

  lemma ConnectA()
    ensures Step(POOL, CHOSEN_AB, Connect(0, A), OPEN_A)
  {
    OpenedExact(map[], A, "a");
  }

  lemma ConnectB()
    ensures Step(POOL, OPEN_A, Connect(1, B), OPEN_AB)
  {
    OpenedExact(OPEN_A.counts, B, "b");
  }

  lemma ConnectAgain()
    ensures Step(POOL, OPEN_AB, Connect(2, A), BUSY_A)
  {
    OpenedExact(OPEN_AB.counts, A, "a");
    assert OPEN_AB.counts["a" := 2] == BUSY_A.counts;
  }

  lemma DropOnly()
    ensures Step(POOL, OPEN_A, Drop(0), ONCE_A)
  {
    ClosedExact(OPEN_A.counts, A, "a");
    assert OPEN_A.counts["a" := 0] == ONCE_A.counts;
    assert OPEN_A.live - {0} == ONCE_A.live;
  }

  lemma DropA()
    ensures Step(POOL, OPEN_AB, Drop(0), IDLE_A)
  {
    ClosedExact(OPEN_AB.counts, A, "a");
    assert OPEN_AB.counts["a" := 0] == IDLE_A.counts;
    assert OPEN_AB.live - {0} == IDLE_A.live;
  }

  lemma ReachOpen()
    ensures Reachable(POOL, OPEN_A) && Reachable(POOL, OPEN_AB)
  {
    assert IsRun(POOL, []) && After([]) == START;
    SelectSteps();
    ConnectA();
    ConnectB();
    ReachNext(POOL, START, Select("a", POOL), CHOSEN_A);
    ReachNext(POOL, CHOSEN_A, Select("b", POOL), CHOSEN_AB);
    ReachNext(POOL, CHOSEN_AB, Connect(0, A), OPEN_A);
    ReachNext(POOL, OPEN_A, Connect(1, B), OPEN_AB);
  }

  lemma IdleOutsideWorkingSet()
    ensures !Selectable(IDLE_A.counts, ["b"])
  {
    assert IDLE_A.counts.Keys == {"a", "b"};
    assert "a" in MinKeys(IDLE_A.counts) && "a" !in Members(["b"]);
  }

  /**
   Selection can fail: in a reachable state the idle address has left the working set.
   `SelectionDomain` says exactly when.
   */
  lemma UnhealthyMinimumFails()
    ensures Reachable(POOL, IDLE_A)
    ensures !Selectable(IDLE_A.counts, ["b"])
  {
    ReachOpen();
    DropA();
    ReachNext(POOL, OPEN_AB, Drop(0), IDLE_A);
    IdleOutsideWorkingSet();
  }

  lemma BusyBeforeUnseen()
    ensures Selectable(BUSY_A.counts, ["b", "c"]) && Candidates(BUSY_A.counts, ["b", "c"]) == {"b"}
  {
    assert BUSY_A.counts.Keys == {"a", "b"};
    assert MinKeys(BUSY_A.counts) == {"b"};
    assert "b" in Members(["b", "c"]);
  }

  lemma UnseenIsIdle(s: State, c: string)
    requires Exact(s.counts, s.live) && c !in s.counts
    ensures Load(s.live, c) == 0
  {
    assert CountOr(s.counts, c, 0) == Load(s.live, c);
  }

  lemma ReachableExact(pool: seq<string>, s: State)
    requires Reachable(pool, s)
    ensures Exact(s.counts, s.live)
  {
    var es :| IsRun(pool, es) && After(es) == s;
    RunsConserve(pool, es);
  }

  /**
   Selection can succeed and yet pick a busy server: in a reachable state a has turned unhealthy
   and b, with one stream, is picked although c has none. `LeastLoadedExactly` says exactly when.
   */
  lemma BusyServerPreferred()
    ensures Reachable(POOL, BUSY_A)
    ensures Selectable(BUSY_A.counts, ["b", "c"]) && Candidates(BUSY_A.counts, ["b", "c"]) == {"b"}
    ensures Load(BUSY_A.live, "b") == 1 && Load(BUSY_A.live, "c") == 0
  {
    ReachOpen();
    ConnectAgain();
    ReachNext(POOL, OPEN_AB, Connect(2, A), BUSY_A);
    BusyBeforeUnseen();
    ReachableExact(POOL, BUSY_A);
    UnseenIsIdle(BUSY_A, "c");
    assert CountOr(BUSY_A.counts, "b", 0) == Load(BUSY_A.live, "b");
  }

  lemma OthersUnseen()
    ensures Candidates(ONCE_A.counts, POOL) == {"b", "c"}
  {
    assert ONCE_A.counts.Keys == {"a"};
    assert Unseen(ONCE_A.counts, POOL) == {"b", "c"};
  }

  /**
   A least-loaded server can be left out of the draw: in a reachable state no server has a stream,
   and a, used before, is no candidate. `TiesDrawnExactly` says exactly when.
   */
  lemma IdleServerLeftOut()
    ensures Reachable(POOL, ONCE_A)
    ensures Candidates(ONCE_A.counts, POOL) == {"b", "c"} && "a" in LeastLoaded(ONCE_A.live, POOL)
  {
    ReachOpen();
    DropOnly();
    ReachNext(POOL, OPEN_A, Drop(0), ONCE_A);
    OthersUnseen();
    ReachableExact(POOL, ONCE_A);
    IdleAreLeast(ONCE_A.counts, ONCE_A.live, POOL, "b");
  }

  const TWICE := ["a", "a"]
  const TWICE_OPEN: State := State(map["a" := 1], map[0 := A], {"a"})

  lemma TwiceSteps()
    ensures Step(TWICE, START, Select("a", TWICE), CHOSEN_A)
    ensures Step(TWICE, CHOSEN_A, Connect(0, A), TWICE_OPEN)
  {
    assert "a" in Unseen(START.counts, TWICE);
    OpenedExact(map[], A, "a");
  }

  lemma TwiceUnselectable()
    ensures !Selectable(TWICE_OPEN.counts, TWICE)
  {
    assert TWICE_OPEN.counts.Keys == {"a"};
    assert Unseen(TWICE_OPEN.counts, TWICE) == {};
  }

  /** A pool that lists an address twice fails after its first connection. */
  lemma RepeatedAddressFails()
    ensures Reachable(TWICE, TWICE_OPEN) && !Selectable(TWICE_OPEN.counts, TWICE)
  {
    assert IsRun(TWICE, []) && After([]) == START;
    TwiceSteps();
    ReachNext(TWICE, START, Select("a", TWICE), CHOSEN_A);
    ReachNext(TWICE, CHOSEN_A, Connect(0, A), TWICE_OPEN);
    TwiceUnselectable();
  }

  // ---------------------------------------------------------------- the strategy

  type Row = (string, nat)

  ghost predicate SortedByCount(rows: seq<Row>) {
    forall i, j :: 0 <= i < j < |rows| ==> rows[i].1 <= rows[j].1
  }

  function Insert(r: Row, rows: seq<Row>): (out: seq<Row>)
    requires SortedByCount(rows)
    ensures SortedByCount(out) && multiset(out) == multiset([r]) + multiset(rows)
  {
    if rows == [] || r.1 < rows[0].1 then [r] + rows
    else
      var rest := Insert(r, rows[1..]);
      InsertedAtLeast(r, rows, rest);
      [rows[0]] + rest
  }

  lemma InsertedAtLeast(r: Row, rows: seq<Row>, rest: seq<Row>)
    requires rows != [] && SortedByCount(rows) && rows[0].1 <= r.1
    requires multiset(rest) == multiset([r]) + multiset(rows[1..])
    ensures forall i :: 0 <= i < |rest| ==> rows[0].1 <= rest[i].1
    ensures multiset([rows[0]] + rest) == multiset([r]) + multiset(rows)
  {
    assert rows == [rows[0]] + rows[1..];
    forall i | 0 <= i < |rest| ensures rows[0].1 <= rest[i].1 {
      assert rest[i] in multiset(rest);
      assert rest[i] == r || rest[i] in rows[1..];
    }
  }

  /** The library's `sort_by` on the counts. */
  function Sorted(rows: seq<Row>): (out: seq<Row>)
    ensures SortedByCount(out) && multiset(out) == multiset(rows)
  {
    if rows == [] then []
    else
      assert rows == [rows[0]] + rows[1..];
      Insert(rows[0], Sorted(rows[1..]))
  }

  class LeastConnection {
    var connections: Counts

    constructor ()
      ensures connections == map[]
    {
      connections := map[];
    }

    method OnTcpOpen(remote: Uri)
      modifies this
      ensures connections == Opened(old(connections), remote)
    {
      if remote.authority.Some? {
        var a := remote.authority.value;
        if a !in connections { connections := connections[a := 0]; }
        connections := connections[a := (connections[a] + 1) % USIZE_VALUES];
      }
    }

    method OnTcpClose(remote: Uri)
      modifies this
      ensures connections == Closed(old(connections), remote)
    {
      if remote.authority.Some? {
        var a := remote.authority.value;
        if a !in connections { connections := connections[a := 1]; }
        connections := connections[a := (connections[a] - 1) % USIZE_VALUES];
      }
    }

    /** The rows of the hash map, in whatever order it yields them. */
    method Rows() returns (rows: seq<Row>)
      ensures RowsOf(connections, rows)
    {
      rows := [];
      var todo := connections.Keys;
      while todo != {}
        invariant todo <= connections.Keys
        invariant forall r: Row :: r in rows <==> r.0 in connections && r.0 !in todo && connections[r.0] == r.1
        decreases |todo|
      {
        var a :| a in todo;
        todo := todo - {a};
        rows := rows + [(a, connections[a])];
      }
    }

    /** Where each working address is; of equal addresses the last position stays. */
    static method IndexMap(working: seq<string>) returns (m: map<string, nat>)
      ensures m.Keys == Members(working)
      ensures forall a :: a in m ==> m[a] < |working| && working[m[a]] == a
    {
      m := map[];
      for i := 0 to |working|
        invariant m.Keys == Members(working[..i])
        invariant forall a :: a in m ==> m[a] < i && working[m[a]] == a
      {
        m := m[working[i] := i];
        assert working[..i + 1] == working[..i] + [working[i]];
      }
      assert working[..|working|] == working;
    }

    /** Walks the sorted rows while their count is the least one, looking up each key. */
    static method LeastIndices(rows: seq<Row>, index: map<string, nat>) returns (indices: Option<seq<nat>>)
      requires rows != [] && SortedByCount(rows)
      ensures indices.Some? <==> LeastKeys(rows) <= index.Keys
      ensures indices.Some? ==> forall i :: i in indices.value <==>
        exists a :: a in LeastKeys(rows) && a in index && index[a] == i
    {
      var min := rows[0].1;
      var found: seq<nat> := [];
      var n := 0;
      while n < |rows| && rows[n].1 == min
        invariant n <= |rows|
        invariant forall k :: 0 <= k < n ==> rows[k].1 == min && rows[k].0 in index
        invariant forall i :: i in found <==> exists k :: 0 <= k < n && index[rows[k].0] == i
      {
        assert rows[n].0 in LeastKeys(rows);
        if rows[n].0 !in index { return None; }
        found := found + [index[rows[n].0]];
        n := n + 1;
      }
      forall a | a in LeastKeys(rows) ensures exists k :: 0 <= k < n && rows[k].0 == a {
        var k :| 0 <= k < |rows| && rows[k].1 == min && rows[k].0 == a;
      }
      forall k | 0 <= k < n ensures rows[k].0 in LeastKeys(rows) { }
      indices := Some(found);
    }

    /** The indices to draw from, or `None` where a least-loaded key has no index to unwrap. */
    method AddressIndices(working: seq<string>) returns (indices: Option<seq<nat>>)
      ensures indices.Some? <==>
        PrefersUnseen(connections, working) || MinKeys(connections) <= Members(working)
      ensures indices.Some? ==> DrawnFrom(connections, working, indices.value)
    {
      if |connections| == 0 || |working| > |connections| {
        var unseen: seq<nat> := [];
        for i := 0 to |working|
          invariant forall k :: k in unseen <==> 0 <= k < i && working[k] !in connections
        {
          if working[i] !in connections { unseen := unseen + [i]; }
        }
        indices := Some(unseen);
      } else {
        var index := IndexMap(working);
        var rows := Rows();
        SortedRows(connections, rows);
        LeastRows(connections, Sorted(rows));
        indices := LeastIndices(Sorted(rows), index);
      }
    }

    /**
     `random` stands for the generator's draw; `None` is a panic of the program. The draw is from
     indices of all the candidates, so each of them comes up for some value of `random`.
     */
    method SelectBackend(working: seq<string>, random: nat) returns (r: Option<string>)
      ensures r.Some? <==> Selectable(connections, working)
      ensures r.Some? ==> r.value in Candidates(connections, working)
      ensures r.Some? ==> exists indices: seq<nat> ::
        indices != [] && DrawnFrom(connections, working, indices) && r.value == Draw(working, indices, random)
    {
      var indices := AddressIndices(working);
      NoCandidates(connections, working);
      if indices == None { return None; }
      if |indices.value| == 1 {
        assert indices.value[0] in indices.value;
        r := Some(working[indices.value[0]]);
        assert r.value == Draw(working, indices.value, random);
      } else if |indices.value| == 0 {
        r := None;
      } else {
        var i := indices.value[random % |indices.value|];
        assert i in indices.value;
        r := Some(working[i]);
        assert r.value == Draw(working, indices.value, random);
      }
    }
  }

  /** The indices are those of candidates, and every candidate has one. */
  ghost predicate DrawnFrom(counts: Counts, working: seq<string>, indices: seq<nat>) {
    && (forall i :: i in indices ==> i < |working| && working[i] in Candidates(counts, working))
    && (forall a :: a in Candidates(counts, working) ==>
          exists i :: i in indices && i < |working| && working[i] == a)
  }

  /** The address at the drawn index. */
  ghost function Draw(working: seq<string>, indices: seq<nat>, random: nat): string
    requires indices != [] && forall i :: i in indices ==> i < |working|
  {
    assert indices[random % |indices|] in indices;
    working[indices[random % |indices|]]
  }

  /** Every candidate comes up for some draw. */
  lemma EveryCandidateDrawn(counts: Counts, working: seq<string>, indices: seq<nat>, a: string)
    requires indices != [] && DrawnFrom(counts, working, indices) && a in Candidates(counts, working)
    ensures exists random: nat :: Draw(working, indices, random) == a
  {
    var i :| i in indices && i < |working| && working[i] == a;
    var random: nat :| random < |indices| && indices[random] == i;
    SmallRemainder(random, |indices|);
    assert Draw(working, indices, random) == a;
  }

  lemma SmallRemainder(x: nat, n: nat)
    requires x < n
    ensures x % n == x
  {
  }

  lemma NoCandidates(counts: Counts, working: seq<string>)
    ensures !PrefersUnseen(counts, working) ==> Candidates(counts, working) != {}
    ensures PrefersUnseen(counts, working) ==> Candidates(counts, working) <= Members(working)
  {
    if !PrefersUnseen(counts, working) { var a := MinKeyExists(counts); }
  }

  ghost function LeastKeys(rows: seq<Row>): set<string>
    requires rows != []
  {
    set k | 0 <= k < |rows| && rows[k].1 == rows[0].1 :: rows[k].0
  }

  ghost predicate RowsOf(counts: Counts, rows: seq<Row>) {
    forall r :: r in rows <==> r.0 in counts && counts[r.0] == r.1
  }

  lemma SortedRows(counts: Counts, rows: seq<Row>)
    requires RowsOf(counts, rows)
    ensures RowsOf(counts, Sorted(rows))
  {
    forall r ensures r in Sorted(rows) <==> r in rows {
      assert r in Sorted(rows) <==> r in multiset(Sorted(rows));
      assert r in rows <==> r in multiset(rows);
    }
  }

  lemma LeastRows(counts: Counts, rows: seq<Row>)
    requires counts != map[] && RowsOf(counts, rows) && SortedByCount(rows)
    ensures rows != [] && LeastKeys(rows) == MinKeys(counts)
  {
    var a :| a in counts;
    assert (a, counts[a]) in rows;
    var least := rows[0].1;
    assert rows[0] in rows;
    forall b | b in counts ensures least <= counts[b] {
      assert (b, counts[b]) in rows;
    }
    forall b | b in LeastKeys(rows) ensures b in MinKeys(counts) {
      var k :| 0 <= k < |rows| && rows[k].1 == least && rows[k].0 == b;
      assert rows[k] in rows;
    }
    forall b | b in MinKeys(counts) ensures b in LeastKeys(rows) {
      assert counts[b] <= counts[rows[0].0];
      assert (b, counts[b]) in rows;
    }
  }

  /** The connector and the streams it has handed out (src/http_client.rs). */
  class NotifyConnector {
    const strategy: LeastConnection
    var live: Streams

    ghost predicate Valid()
      reads this, strategy
    {
      Conserved(strategy.connections, live)
    }

    constructor (strategy: LeastConnection)
      requires strategy.connections == map[]
      ensures Valid() && this.strategy == strategy && live == map[]
    {
      this.strategy := strategy;
      live := map[];
      new;
      forall a ensures Load(live, a) == 0 { assert StreamsTo(live, a) == {}; }
      assert Bearing(live) == {};
    }

    /** `accepted` says whether the TCP connection came about; only then is anything reported. */
    method Call(id: nat, target: Uri, accepted: bool)
      requires Valid() && id !in live && |live| + 1 < USIZE_VALUES
      modifies this, strategy
      ensures Valid()
      ensures live == if accepted then old(live)[id := target] else old(live)
      ensures strategy.connections ==
        if accepted then Opened(old(strategy.connections), target) else old(strategy.connections)
    {
      if accepted {
        OpenConserves(strategy.connections, live, id, target);
        strategy.OnTcpOpen(target);
        live := live[id := target];
      }
    }

    method DropStream(id: nat)
      requires Valid() && id in live
      modifies this, strategy
      ensures Valid()
      ensures live == old(live) - {id}
      ensures strategy.connections == Closed(old(strategy.connections), old(live[id]))
    {
      CloseConserves(strategy.connections, live, id);
      strategy.OnTcpClose(live[id]);
      live := live - {id};
    }
  }
}
