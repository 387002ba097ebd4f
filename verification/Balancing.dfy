/**
 Request forwarders and strategies (src/load_balancing/mod.rs, sticky_cookie.rs, and the choices
 of the other strategies): which address a possibly nested strategy picks, what it adds to the
 response, and how long a client stays with its backend.
 */
module Balancing {
  import opened Wrappers
  import Text
  import MiddlewareChains
  import LeastConnections
  import RoundRobins

  type Response = MiddlewareChains.Response

  // ---------------------------------------------------------------- forwarders

  datatype Forwarder = Forwarder(address: string, mapper: Response -> Response)

  function NewForwarder(address: string): Forwarder {
    Forwarder(address, r => r)
  }

  /** The added mapper runs after the ones already there. */
  function MapResponse(f: Forwarder, g: Response -> Response): Forwarder {
    Forwarder(f.address, r => g(f.mapper(r)))
  }

  // ---------------------------------------------------------------- cookies

  /**
   The `cookie` crate: parsing one piece of a Cookie header into name and value, the text of a
   Set-Cookie value from name, value and attributes, and what a client sends back for it.
   */
  datatype CookieLibrary = CookieLibrary(
    parse: string -> Option<(string, string)>,
    format: (string, string, string) -> string,
    echo: string -> string)

  predicate Named(lib: CookieLibrary, name: string, piece: string) {
    lib.parse(piece).Some? && lib.parse(piece).value.0 == name
  }

  function FirstNamed(lib: CookieLibrary, name: string, pieces: seq<string>): Option<string> {
    if pieces == [] then None
    else if Named(lib, name, pieces[0]) then Some(lib.parse(pieces[0]).value.1)
    else FirstNamed(lib, name, pieces[1..])
  }

  /** `try_parse_sticky_cookie`; the header is absent also where it is not visible text. */
  function StickyValue(lib: CookieLibrary, name: string, header: Option<string>): Option<string> {
    if header.None? then None else FirstNamed(lib, name, Text.Split(header.value, ';'))
  }

  datatype Layer = Layer(name: string, attributes: string)

  function SetCookie(lib: CookieLibrary, layer: Layer, address: string): string {
    lib.format(layer.name, address, layer.attributes)
  }

  function AddCookie(cookie: string, r: Response): Response {
    r.(setCookies := r.setCookies + [cookie])
  }

  // ---------------------------------------------------------------- strategies

  datatype Strategy =
    | Random
    | IPHash
    | RoundRobin(rrc: nat, poisoned: bool)
    | LeastConnection(counts: LeastConnections.Counts)
    | StickyCookie(layer: Layer, inner: Strategy)

  /** What selection takes from outside: cookie handling, a hash of the client, random draws. */
  datatype Env = Env(
    cookies: CookieLibrary,
    hash: nat,
    draw: nat,
    least: (LeastConnections.Counts, seq<string>) -> Option<string>)

  /** `least` behaves as the selection method of the least-connection strategy does. */
  ghost predicate LeastAsSpecified(env: Env) {
    forall counts, working ::
      && (env.least(counts, working).Some? <==> LeastConnections.Selectable(counts, working))
      && (env.least(counts, working).Some? ==>
            env.least(counts, working).value in LeastConnections.Candidates(counts, working))
  }

  /** The forwarder picked, and the strategy as the selection leaves it. */
  datatype Selection = Selection(forwarder: Forwarder, after: Strategy)

  /** `None` stands for a panic of the program. */
  function SelectBackend(env: Env, s: Strategy, header: Option<string>, working: seq<string>): Option<Selection>
    requires working != []
  {
    match s
    case Random => Some(Selection(NewForwarder(working[env.draw % |working|]), s))
    case IPHash => Some(Selection(NewForwarder(working[env.hash % |working|]), s))
    case RoundRobin(rrc, poisoned) =>
      var next := RoundRobins.Advance(rrc, |working|);
      if poisoned || next.None? then None
      else
        RoundRobins.ModulusFits(|working|);
        Some(Selection(NewForwarder(working[next.value]), RoundRobin(next.value, false)))
    case LeastConnection(counts) =>
      var pick := env.least(counts, working);
      if pick.None? then None else Some(Selection(NewForwarder(pick.value), s))
    case StickyCookie(layer, inner) =>
      var value := StickyValue(env.cookies, layer.name, header);
      if value.Some? && value.value in working then Some(Selection(NewForwarder(value.value), s))
      else
        var below := SelectBackend(env, inner, header, working);
        if below.None? then None
        else
          var f := below.value.forwarder;
          var cookie := SetCookie(env.cookies, layer, f.address);
          Some(Selection(MapResponse(f, r => AddCookie(cookie, r)), StickyCookie(layer, below.value.after)))
  }

  lemma LeastPicksWorking(env: Env, counts: LeastConnections.Counts, working: seq<string>)
    requires LeastAsSpecified(env)
    ensures env.least(counts, working).Some? <==> LeastConnections.Selectable(counts, working)
    ensures env.least(counts, working).Some? ==> env.least(counts, working).value in working
  {
    var pick := env.least(counts, working);
    if pick.Some? {
      assert pick.value in LeastConnections.Members(working);
    }
  }

  // ---------------------------------------------------------------- nested layers

  /** The sticky layers, outermost first, and the strategy at the core. */
  function Layers(s: Strategy): seq<Layer> {
    if s.StickyCookie? then [s.layer] + Layers(s.inner) else []
  }

  function Core(s: Strategy): Strategy {
    if s.StickyCookie? then Core(s.inner) else s
  }

  predicate Hit(lib: CookieLibrary, layer: Layer, header: Option<string>, working: seq<string>) {
    var value := StickyValue(lib, layer.name, header);
    value.Some? && value.value in working
  }

  /** How many layers, from the outside, miss before the first hit. */
  function Misses(lib: CookieLibrary, layers: seq<Layer>, header: Option<string>, working: seq<string>): (n: nat)
    ensures n <= |layers|
    ensures forall i :: 0 <= i < n ==> !Hit(lib, layers[i], header, working)
    ensures n < |layers| ==> Hit(lib, layers[n], header, working)
  {
    if layers == [] || Hit(lib, layers[0], header, working) then 0
    else 1 + Misses(lib, layers[1..], header, working)
  }

  /** One cookie per missing layer, all naming the address, the innermost layer's first. */
  function NewCookies(lib: CookieLibrary, layers: seq<Layer>, address: string): (cookies: seq<string>)
    ensures |cookies| == |layers|
    ensures forall i :: 0 <= i < |layers| ==>
      cookies[|layers| - 1 - i] == lib.format(layers[i].name, address, layers[i].attributes)
  {
    if layers == [] then []
    else NewCookies(lib, layers[1..], address) + [SetCookie(lib, layers[0], address)]
  }

  /** The layers around an inner strategy, when the outermost one misses. */
  lemma MissedLayer(lib: CookieLibrary, s: Strategy, header: Option<string>, working: seq<string>)
    requires s.StickyCookie? && !Hit(lib, s.layer, header, working)
    ensures var n := Misses(lib, Layers(s.inner), header, working);
      && Misses(lib, Layers(s), header, working) == n + 1
      && Layers(s)[n + 1..] == Layers(s.inner)[n..]
  {
    assert Layers(s)[1..] == Layers(s.inner);
  }

  lemma MissedCookies(lib: CookieLibrary, s: Strategy, n: nat, address: string)
    requires s.StickyCookie? && n <= |Layers(s.inner)|
    ensures NewCookies(lib, Layers(s)[..n + 1], address)
         == NewCookies(lib, Layers(s.inner)[..n], address) + [SetCookie(lib, s.layer, address)]
  {
    assert Layers(s)[..n + 1][1..] == Layers(s.inner)[..n];
  }

  /** A hit decides; on a miss the inner strategy does. */
  lemma ThroughLayer(env: Env, s: Strategy, header: Option<string>, working: seq<string>)
    requires working != [] && s.StickyCookie?
    ensures var picked, below := SelectBackend(env, s, header, working), SelectBackend(env, s.inner, header, working);
      if Hit(env.cookies, s.layer, header, working) then
        picked.Some? && Some(picked.value.forwarder.address) == StickyValue(env.cookies, s.layer.name, header)
      else
        && (picked.Some? <==> below.Some?)
        && (picked.Some? ==> picked.value.forwarder.address == below.value.forwarder.address)
  {
  }

  /**
   What a nest of strategies selects: the address in the outermost cookie that names a working
   address, and then it cannot fail; else what the core strategy picks, if that succeeds.
   */
  lemma {:induction false} NestedAddress(env: Env, s: Strategy, header: Option<string>, working: seq<string>)
    requires working != []
    ensures var picked := SelectBackend(env, s, header, working);
      var hits := Layers(s)[Misses(env.cookies, Layers(s), header, working)..];
      if hits != [] then
        picked.Some? && Some(picked.value.forwarder.address) == StickyValue(env.cookies, hits[0].name, header)
      else
        var core := SelectBackend(env, Core(s), header, working);
        && (picked.Some? <==> core.Some?)
        && (picked.Some? ==> picked.value.forwarder.address == core.value.forwarder.address)
  {
    if s.StickyCookie? {
      ThroughLayer(env, s, header, working);
      if !Hit(env.cookies, s.layer, header, working) {
        NestedAddress(env, s.inner, header, working);
        MissedLayer(env.cookies, s, header, working);
      }
    }
  }

  /** When a strategy without layers can pick from these addresses. */
  ghost predicate CoreDomain(core: Strategy, working: seq<string>) {
    match core
    case RoundRobin(_, poisoned) => !poisoned && RoundRobins.Modulus(|working|) != 0
    case LeastConnection(counts) => LeastConnections.Selectable(counts, working)
    case _ => true
  }

  lemma CoreSelects(env: Env, core: Strategy, header: Option<string>, working: seq<string>)
    requires working != [] && LeastAsSpecified(env) && !core.StickyCookie?
    ensures var picked := SelectBackend(env, core, header, working);
      && (picked.Some? <==> CoreDomain(core, working))
      && (picked.Some? ==> picked.value.forwarder.address in working)
  {
    match core
    case LeastConnection(counts) => LeastPicksWorking(env, counts, working);
    case RoundRobin(_, _) => RoundRobins.ModulusFits(|working|);
    case _ =>
  }

  lemma {:induction false} CoreIsBare(s: Strategy)
    ensures !Core(s).StickyCookie?
  {
    if s.StickyCookie? { CoreIsBare(s.inner); }
  }

  /**
   Every nest of strategies picks a working address, and it succeeds exactly if some layer's
   cookie hits or the addresses are in the domain of the core strategy.
   */
  lemma {:induction false} SelectsWorking(env: Env, s: Strategy, header: Option<string>, working: seq<string>)
    requires working != [] && LeastAsSpecified(env)
    ensures var picked := SelectBackend(env, s, header, working);
      && (picked.Some? ==> picked.value.forwarder.address in working)
      && (picked.Some? <==>
            || Misses(env.cookies, Layers(s), header, working) < |Layers(s)|
            || CoreDomain(Core(s), working))
  {
    NestedAddress(env, s, header, working);
    CoreIsBare(s);
    CoreSelects(env, Core(s), header, working);
  }

  /**
   The response keeps its cookies and everything else, and gains one cookie per layer outside the
   first hit, inner layers first.
   */
  lemma {:induction false} NestedCookies(
    env: Env, s: Strategy, header: Option<string>, working: seq<string>, r: Response)
    requires working != [] && SelectBackend(env, s, header, working).Some?
    ensures var f := SelectBackend(env, s, header, working).value.forwarder;
      var missed := Layers(s)[..Misses(env.cookies, Layers(s), header, working)];
      f.mapper(r) == r.(setCookies := r.setCookies + NewCookies(env.cookies, missed, f.address))
  {
    if s.StickyCookie? && !Hit(env.cookies, s.layer, header, working) {
      NestedCookies(env, s.inner, header, working, r);
      MissedLayer(env.cookies, s, header, working);
      LayerMapper(env, s, header, working, r);
      var f := SelectBackend(env, s, header, working).value.forwarder;
      var n := Misses(env.cookies, Layers(s.inner), header, working);
      MissedCookies(env.cookies, s, n, f.address);
      CookieAfterCookies(
        r, NewCookies(env.cookies, Layers(s.inner)[..n], f.address), SetCookie(env.cookies, s.layer, f.address));
    } else {
      assert r.setCookies + [] == r.setCookies;
    }
  }

  lemma CookieAfterCookies(r: Response, cookies: seq<string>, cookie: string)
    ensures AddCookie(cookie, r.(setCookies := r.setCookies + cookies))
         == r.(setCookies := r.setCookies + (cookies + [cookie]))
  {
    assert r.setCookies + cookies + [cookie] == r.setCookies + (cookies + [cookie]);
  }

  lemma LayerMapper(env: Env, s: Strategy, header: Option<string>, working: seq<string>, r: Response)
    requires working != [] && s.StickyCookie? && !Hit(env.cookies, s.layer, header, working)
    requires SelectBackend(env, s.inner, header, working).Some?
    ensures var below := SelectBackend(env, s.inner, header, working).value.forwarder;
      var f := SelectBackend(env, s, header, working).value.forwarder;
      && f.address == below.address
      && f.mapper(r) == AddCookie(SetCookie(env.cookies, s.layer, f.address), below.mapper(r))
  {
  }

  // ---------------------------------------------------------------- what a selection leaves behind

  /** The address a strategy without layers picks, and the strategy it is afterwards. */
  ghost predicate CoreChooses(env: Env, core: Strategy, working: seq<string>, address: string, after: Strategy)
    requires working != []
  {
    match core
    case Random => address == working[env.draw % |working|] && after == core
    case IPHash => address == working[env.hash % |working|] && after == core
    case LeastConnection(counts) => address in LeastConnections.Candidates(counts, working) && after == core
    case RoundRobin(rrc, _) =>
      var n := |working| % 0x1_0000_0000;
      && n > 0
      && var next := (rrc + 1) % 0x1_0000_0000 % n;
         address == working[next] && after == RoundRobin(next, false)
    case StickyCookie(_, _) => false
  }

  lemma CoreChoice(env: Env, core: Strategy, header: Option<string>, working: seq<string>)
    requires working != [] && LeastAsSpecified(env) && !core.StickyCookie?
    ensures var picked := SelectBackend(env, core, header, working);
      picked.Some? ==> CoreChooses(env, core, working, picked.value.forwarder.address, picked.value.after)
  {
    match core
    case LeastConnection(counts) => LeastPicksWorking(env, counts, working);
    case RoundRobin(_, _) => RoundRobins.ModulusFits(|working|);
    case _ =>
  }

  /**
   The address and the strategy left behind, for every nest: a hit of some layer picks the
   outermost hit's cookie value and leaves the whole nest as it was; without a hit the layers stay
   and the core chooses and moves on as it would alone.
   */
  lemma {:induction false} SelectionExact(env: Env, s: Strategy, header: Option<string>, working: seq<string>)
    requires working != [] && LeastAsSpecified(env)
    ensures var picked := SelectBackend(env, s, header, working);
      var hits := Layers(s)[Misses(env.cookies, Layers(s), header, working)..];
      picked.Some? ==>
        var address, after := picked.value.forwarder.address, picked.value.after;
        if hits != [] then Some(address) == StickyValue(env.cookies, hits[0].name, header) && after == s
        else Layers(after) == Layers(s) && CoreChooses(env, Core(s), working, address, Core(after))
  {
    if s.StickyCookie? {
      ThroughLayer(env, s, header, working);
      if !Hit(env.cookies, s.layer, header, working) {
        SelectionExact(env, s.inner, header, working);
        MissedLayer(env.cookies, s, header, working);
      }
    } else {
      CoreChoice(env, s, header, working);
    }
  }

  // ---------------------------------------------------------------- many selections

  /** A request of whatever client: the outside world, its Cookie header and the working addresses. */
  datatype Visit = Visit(env: Env, header: Option<string>, working: seq<string>)

  ghost predicate Proper(visits: seq<Visit>) {
    forall i :: 0 <= i < |visits| ==> visits[i].working != [] && LeastAsSpecified(visits[i].env)
  }

  function Choose(s: Strategy, v: Visit): Option<Selection>
    requires v.working != []
  {
    SelectBackend(v.env, s, v.header, v.working)
  }

  /** A panic in a round-robin core poisons its mutex for good. */
  function AfterPanic(s: Strategy): Strategy {
    match s
    case RoundRobin(rrc, _) => RoundRobin(rrc, true)
    case StickyCookie(layer, inner) => StickyCookie(layer, AfterPanic(inner))
    case _ => s
  }

  function AfterVisit(s: Strategy, v: Visit): Strategy
    requires v.working != []
  {
    var picked := Choose(s, v);
    if picked.Some? then picked.value.after else AfterPanic(s)
  }

  ghost function AfterVisits(s: Strategy, visits: seq<Visit>): Strategy
    requires Proper(visits)
  {
    if visits == [] then s
    else AfterVisit(AfterVisits(s, visits[..|visits| - 1]), visits[|visits| - 1])
  }

  /** No layer hits, so the core decides. */
  predicate AllMiss(layers: seq<Layer>, v: Visit) {
    Misses(v.env.cookies, layers, v.header, v.working) == |layers|
  }

  /** The numbers of working addresses in the visits that the core decides. */
  function CoreLengths(layers: seq<Layer>, visits: seq<Visit>): seq<nat> {
    if visits == [] then []
    else
      var last := visits[|visits| - 1];
      CoreLengths(layers, visits[..|visits| - 1]) + if AllMiss(layers, last) then [|last.working|] else []
  }

  /** A round-robin core that has made calls on lists of these lengths. */
  ghost predicate Counts(core: Strategy, lengths: seq<nat>) {
    core.RoundRobin? && RoundRobins.CounterAfter(lengths) == if core.poisoned then None else Some(core.rrc)
  }

  lemma {:induction false} PanicPoisons(s: Strategy)
    ensures Layers(AfterPanic(s)) == Layers(s) && Core(AfterPanic(s)) == AfterPanic(Core(s))
  {
    if s.StickyCookie? { PanicPoisons(s.inner); }
  }

  /** One visit: a hit leaves everything as it was, a miss is one call on the core. */
  lemma VisitCounts(s: Strategy, v: Visit, lengths: seq<nat>)
    requires v.working != [] && LeastAsSpecified(v.env) && Counts(Core(s), lengths)
    ensures var after := AfterVisit(s, v);
      && Layers(after) == Layers(s)
      && (!AllMiss(Layers(s), v) ==> after == s)
      && (AllMiss(Layers(s), v) ==> Counts(Core(after), lengths + [|v.working|]))
  {
    SelectionExact(v.env, s, v.header, v.working);
    SelectsWorking(v.env, s, v.header, v.working);
    PanicPoisons(s);
    assert (lengths + [|v.working|])[..|lengths|] == lengths;
  }

  /**
   Round robin inside any nest of sticky layers, over every run of visits: hits do not touch its
   counter, and the visits that miss every layer are to it the calls of the bare strategy, with
   its failures on lists whose length is a multiple of 2^32 and after such a failure.
   */
  lemma {:induction false} NestedCounter(s: Strategy, visits: seq<Visit>, lengths: seq<nat>)
    requires Proper(visits) && Counts(Core(s), lengths)
    ensures var after := AfterVisits(s, visits);
      Layers(after) == Layers(s) && Counts(Core(after), lengths + CoreLengths(Layers(s), visits))
  {
    if visits == [] {
      assert lengths + [] == lengths;
    } else {
      var g, last := visits[..|visits| - 1], visits[|visits| - 1];
      NestedCounter(s, g, lengths);
      OneMoreVisit(Layers(s), AfterVisits(s, g), last, lengths, CoreLengths(Layers(s), g));
    }
  }

  lemma OneMoreVisit(layers: seq<Layer>, before: Strategy, v: Visit, lengths: seq<nat>, more: seq<nat>)
    requires v.working != [] && LeastAsSpecified(v.env)
    requires Layers(before) == layers && Counts(Core(before), lengths + more)
    ensures var after := AfterVisit(before, v);
      && Layers(after) == layers
      && Counts(Core(after), lengths + (more + if AllMiss(layers, v) then [|v.working|] else []))
  {
    assert lengths + (more + [|v.working|]) == (lengths + more) + [|v.working|];
    assert more + [] == more;
    VisitCounts(before, v, lengths + more);
  }

  /** The backends of the visits that miss every layer, in order. */
  ghost function ServedByCore(s: Strategy, visits: seq<Visit>): seq<string>
    requires Proper(visits)
  {
    if visits == [] then []
    else
      var g, last := visits[..|visits| - 1], visits[|visits| - 1];
      ServedByCore(s, g) + ServedNow(Layers(s), AfterVisits(s, g), last)
  }

  function ServedNow(layers: seq<Layer>, s: Strategy, v: Visit): seq<string>
    requires v.working != []
  {
    var picked := Choose(s, v);
    if AllMiss(layers, v) && picked.Some? then [picked.value.forwarder.address] else []
  }

  /** Every visit that misses finds these addresses working; visits that hit may find any. */
  ghost predicate MissesOn(layers: seq<Layer>, visits: seq<Visit>, working: seq<string>) {
    forall i :: 0 <= i < |visits| && AllMiss(layers, visits[i]) ==> visits[i].working == working
  }

  /** The counter of a core that started at `rrc` and has made `k` calls on `n` addresses. */
  function CounterAt(rrc: nat, n: nat, k: nat): nat
    requires n > 0
  {
    if k == 0 then rrc else RoundRobins.Pick(rrc, n, k - 1)
  }

  lemma NextPosition(rrc: nat, n: nat, k: nat)
    requires 0 < n < RoundRobins.U32_VALUES && rrc + 1 < RoundRobins.U32_VALUES
    ensures (CounterAt(rrc, n, k) + 1) % 0x1_0000_0000 % (n % 0x1_0000_0000) == RoundRobins.Pick(rrc, n, k)
  {
    if k > 0 { RoundRobins.PickNext(rrc, n, k - 1); }
  }

  /** A visit that misses every layer over a round-robin core. */
  lemma MissTakesNext(s: Strategy, v: Visit, rrc: nat, k: nat)
    requires 0 < |v.working| < RoundRobins.U32_VALUES && rrc + 1 < RoundRobins.U32_VALUES
    requires LeastAsSpecified(v.env) && AllMiss(Layers(s), v)
    requires Core(s) == RoundRobin(CounterAt(rrc, |v.working|, k), false)
    ensures var picked := Choose(s, v);
      && picked.Some? && picked.value.forwarder.address == v.working[RoundRobins.Pick(rrc, |v.working|, k)]
      && Layers(picked.value.after) == Layers(s)
      && Core(picked.value.after) == RoundRobin(CounterAt(rrc, |v.working|, k + 1), false)
  {
    SelectionExact(v.env, s, v.header, v.working);
    SelectsWorking(v.env, s, v.header, v.working);
    NextPosition(rrc, |v.working|, k);
  }

  /** The addresses that calls `0..k` on a core started at `rrc` return. */
  function Turns(working: seq<string>, rrc: nat, k: nat): seq<string>
    requires working != []
  {
    seq(k, i requires 0 <= i => working[RoundRobins.Pick(rrc, |working|, i)])
  }

  /** What the nest serves and is left as by one more visit, if it has made `k` calls on its core. */
  lemma OneMoreTurn(s: Strategy, v: Visit, rrc: nat, k: nat, working: seq<string>)
    requires 0 < |working| < RoundRobins.U32_VALUES && rrc + 1 < RoundRobins.U32_VALUES
    requires v.working != [] && LeastAsSpecified(v.env) && (AllMiss(Layers(s), v) ==> v.working == working)
    requires Core(s) == RoundRobin(CounterAt(rrc, |working|, k), false)
    ensures var k' := if AllMiss(Layers(s), v) then k + 1 else k;
      && Layers(AfterVisit(s, v)) == Layers(s)
      && Core(AfterVisit(s, v)) == RoundRobin(CounterAt(rrc, |working|, k'), false)
      && Turns(working, rrc, k) + ServedNow(Layers(s), s, v) == Turns(working, rrc, k')
  {
    if AllMiss(Layers(s), v) { MissTakesNext(s, v, rrc, k); } else { HitLeavesAll(s, v); }
  }

  /**
   Turns inside any nest: over every run of visits, those that miss every layer walk through the
   working addresses in turn, however many hits come in between, and leave the counter where the
   bare strategy would have it.
   */
  lemma {:induction false} NestedTurns(s: Strategy, visits: seq<Visit>, working: seq<string>)
    requires Proper(visits) && MissesOn(Layers(s), visits, working)
    requires 0 < |working| < RoundRobins.U32_VALUES
    requires Core(s).RoundRobin? && !Core(s).poisoned && Core(s).rrc + 1 < RoundRobins.U32_VALUES
    ensures var k, after := |CoreLengths(Layers(s), visits)|, AfterVisits(s, visits);
      && Layers(after) == Layers(s) && Core(after) == RoundRobin(CounterAt(Core(s).rrc, |working|, k), false)
      && ServedByCore(s, visits) == Turns(working, Core(s).rrc, k)
  {
    if visits != [] {
      var g, last := visits[..|visits| - 1], visits[|visits| - 1];
      NestedTurns(s, g, working);
      var before, k, layers := AfterVisits(s, g), |CoreLengths(Layers(s), g)|, Layers(s);
      OneMoreTurn(before, last, Core(s).rrc, k, working);
      assert |CoreLengths(layers, visits)| == if AllMiss(layers, last) then k + 1 else k;
      assert AfterVisits(s, visits) == AfterVisit(before, last);
      assert ServedByCore(s, visits) == ServedByCore(s, g) + ServedNow(layers, before, last);
    }
  }

  lemma {:induction false} TurnsServe(working: seq<string>, rrc: nat, k: nat, a: string)
    requires working != []
    ensures multiset(Turns(working, rrc, k))[a] == RoundRobins.Served(working, rrc, k, a)
  {
    if k > 0 {
      TurnsServe(working, rrc, k - 1, a);
      assert Turns(working, rrc, k) ==
        Turns(working, rrc, k - 1) + [working[RoundRobins.Pick(rrc, |working|, k - 1)]];
    }
  }

  lemma HitLeavesAll(s: Strategy, v: Visit)
    requires v.working != [] && LeastAsSpecified(v.env) && !AllMiss(Layers(s), v)
    ensures AfterVisit(s, v) == s
  {
    SelectionExact(v.env, s, v.header, v.working);
    SelectsWorking(v.env, s, v.header, v.working);
  }

  /** As many misses as there are working addresses serve every address as often as it is listed. */
  lemma NestedRound(s: Strategy, visits: seq<Visit>, working: seq<string>)
    requires Proper(visits) && MissesOn(Layers(s), visits, working)
    requires 0 < |working| < RoundRobins.U32_VALUES
    requires Core(s).RoundRobin? && !Core(s).poisoned && Core(s).rrc + 1 < RoundRobins.U32_VALUES
    requires |CoreLengths(Layers(s), visits)| == |working|
    ensures multiset(ServedByCore(s, visits)) == multiset(working)
  {
    NestedTurns(s, visits, working);
    forall a ensures multiset(ServedByCore(s, visits))[a] == multiset(working)[a] {
      TurnsServe(working, Core(s).rrc, |working|, a);
      RoundRobins.RoundServesByMultiplicity(working, Core(s).rrc, a);
    }
  }

  // ---------------------------------------------------------------- a client over many requests

  /**
   One request of the client: the outside world, its Cookie header, the working addresses, and the
   strategy inside the outermost layer as the requests of all other clients have left it.
   */
  datatype Round = Round(env: Env, header: Option<string>, working: seq<string>, inner: Strategy)

  /** The cookie the client keeps for the outermost layer, and who served it last. */
  datatype Session = Session(jar: Option<string>, served: Option<string>)

  /** What the client's request selects, from the strategy shared with everybody else. */
  function Pick(layer: Layer, round: Round): Option<Selection>
    requires round.working != []
  {
    SelectBackend(round.env, StickyCookie(layer, round.inner), round.header, round.working)
  }

  /** The cookies a response gains by being mapped. */
  function Gained(f: Forwarder): seq<string> {
    f.mapper(MiddlewareChains.Answer(200, map[], "")).setCookies
  }

  /** Of the gained cookies the outermost layer's comes last; there are none when that layer hits. */
  lemma GainedCookies(env: Env, s: Strategy, header: Option<string>, working: seq<string>)
    requires working != [] && s.StickyCookie? && SelectBackend(env, s, header, working).Some?
    ensures var f := SelectBackend(env, s, header, working).value.forwarder;
      && (Gained(f) == [] <==> Hit(env.cookies, s.layer, header, working))
      && (Gained(f) != [] ==> Gained(f)[|Gained(f)| - 1] == SetCookie(env.cookies, s.layer, f.address))
  {
    var f := SelectBackend(env, s, header, working).value.forwarder;
    var missed := Layers(s)[..Misses(env.cookies, Layers(s), header, working)];
    NestedCookies(env, s, header, working, MiddlewareChains.Answer(200, map[], ""));
    assert Gained(f) == NewCookies(env.cookies, missed, f.address);
    if missed != [] {
      assert missed[0] == s.layer;
      assert NewCookies(env.cookies, missed, f.address)[|missed| - 1 - 0]
          == SetCookie(env.cookies, missed[0], f.address);
    }
  }

  /** The outermost layer's cookie comes last; the client keeps that one. */
  function Play(layer: Layer, session: Session, round: Round): Option<Session>
    requires round.working != []
  {
    var picked := Pick(layer, round);
    if picked.None? then None
    else
      var f := picked.value.forwarder;
      var gained := Gained(f);
      Some(Session(if gained == [] then session.jar else Some(gained[|gained| - 1]), Some(f.address)))
  }

  /**
   The client sends back the cookie it keeps, among any others; it never sends two values for
   the sticky name, and none before it was given one.
   */
  ghost predicate Echoes(lib: CookieLibrary, name: string, jar: Option<string>, header: Option<string>) {
    match jar
    case None => StickyValue(lib, name, header).None?
    case Some(cookie) =>
      && header.Some?
      && var pieces := Text.Split(header.value, ';');
         && lib.echo(cookie) in pieces
         && forall p :: p in pieces && Named(lib, name, p) ==> lib.parse(p) == lib.parse(lib.echo(cookie))
  }

  /** The address comes back unharmed from formatting, the client and parsing. */
  ghost predicate Survives(lib: CookieLibrary, layer: Layer, address: string) {
    lib.parse(lib.echo(SetCookie(lib, layer, address))) == Some((layer.name, address))
  }

  /** Piece `i` is the first that parses to a cookie of this name, and `value` is its value. */
  ghost predicate FirstWith(lib: CookieLibrary, name: string, pieces: seq<string>, i: nat, value: string) {
    && i < |pieces| && lib.parse(pieces[i]) == Some((name, value))
    && forall j :: 0 <= j < i ==> lib.parse(pieces[j]).None? || lib.parse(pieces[j]).value.0 != name
  }

  lemma {:induction false} FirstNamedExact(lib: CookieLibrary, name: string, pieces: seq<string>) returns (i: nat)
    ensures match FirstNamed(lib, name, pieces)
      case Some(value) => FirstWith(lib, name, pieces, i, value)
      case None => forall j :: 0 <= j < |pieces| ==> lib.parse(pieces[j]).None? || lib.parse(pieces[j]).value.0 != name
  {
    i := 0;
    if pieces != [] && !Named(lib, name, pieces[0]) {
      var k := FirstNamedExact(lib, name, pieces[1..]);
      assert forall j :: 0 < j < |pieces| ==> pieces[j] == pieces[1..][j - 1];
      i := k + 1;
    } else if pieces != [] {
      assert FirstWith(lib, name, pieces, 0, lib.parse(pieces[0]).value.1);
    }
  }

  /**
   The sticky cookie of a header, whatever pieces it is made of: the value of the first piece that
   parses to the name, and none exactly if no piece does or there is no header.
   */
  lemma StickyValueExact(lib: CookieLibrary, name: string, pieces: seq<string>, value: string)
    requires pieces != [] && forall i :: 0 <= i < |pieces| ==> ';' !in pieces[i]
    ensures StickyValue(lib, name, Some(Text.Join(pieces, ';'))) == Some(value) <==>
      exists i: nat :: FirstWith(lib, name, pieces, i, value)
    ensures StickyValue(lib, name, Some(Text.Join(pieces, ';'))) == None <==>
      forall i :: 0 <= i < |pieces| ==> lib.parse(pieces[i]).None? || lib.parse(pieces[i]).value.0 != name
    ensures StickyValue(lib, name, None) == None
  {
    assert Text.Split(Text.Join(pieces, ';'), ';') == pieces by { Text.JoinThenSplit(pieces, ';'); }
    FoundAmong(lib, name, pieces, value);
  }

  lemma FirstUnique(lib: CookieLibrary, name: string, pieces: seq<string>, i: nat, v: string, k: nat, w: string)
    requires FirstWith(lib, name, pieces, i, v) && FirstWith(lib, name, pieces, k, w)
    ensures v == w
  {
    assert i == k;
  }

  lemma FoundAmong(lib: CookieLibrary, name: string, pieces: seq<string>, value: string)
    ensures FirstNamed(lib, name, pieces) == Some(value) <==> exists i: nat :: FirstWith(lib, name, pieces, i, value)
    ensures FirstNamed(lib, name, pieces) == None <==>
      forall i :: 0 <= i < |pieces| ==> lib.parse(pieces[i]).None? || lib.parse(pieces[i]).value.0 != name
  {
    var i := FirstNamedExact(lib, name, pieces);
    var found := FirstNamed(lib, name, pieces);
    if found.Some? {
      forall k: nat | FirstWith(lib, name, pieces, k, value) ensures found.value == value {
        FirstUnique(lib, name, pieces, i, found.value, k, value);
      }
    }
  }

  lemma {:induction false} FirstNamedFinds(lib: CookieLibrary, name: string, pieces: seq<string>, piece: string)
    requires piece in pieces && Named(lib, name, piece)
    requires forall p :: p in pieces && Named(lib, name, p) ==> lib.parse(p) == lib.parse(piece)
    ensures FirstNamed(lib, name, pieces) == Some(lib.parse(piece).value.1)
  {
    if !Named(lib, name, pieces[0]) {
      FirstNamedFinds(lib, name, pieces[1..], piece);
    }
  }

  /** The client's cookie, if it has one, names the backend that served it last. */
  ghost predicate Bound(lib: CookieLibrary, layer: Layer, session: Session) {
    session.jar == if session.served.None? then None else Some(SetCookie(lib, layer, session.served.value))
  }

  /** What a round needs: an echoing client and addresses that fit in a cookie. */
  ghost predicate Fits(lib: CookieLibrary, layer: Layer, session: Session, round: Round) {
    && round.env.cookies == lib && LeastAsSpecified(round.env) && round.working != []
    && (session.served.Some? ==> Survives(lib, layer, session.served.value))
    && Echoes(lib, layer.name, session.jar, round.header)
  }

  /** The client's backend is still among the working addresses. */
  predicate Kept(session: Session, round: Round) {
    session.served.Some? && session.served.value in round.working
  }

  /**
   One more request of a client that echoes its cookie: while its backend works, the round succeeds
   and stays with it; otherwise, if the round succeeds, the client is given a new cookie, naming
   the new backend.
   */
  lemma StickyRound(lib: CookieLibrary, layer: Layer, session: Session, round: Round)
    requires Bound(lib, layer, session) && Fits(lib, layer, session, round)
    ensures Kept(session, round) ==> Play(layer, session, round) == Some(session)
    ensures Play(layer, session, round).Some? ==>
      var next := Play(layer, session, round).value;
      && Bound(lib, layer, next) && next.served.Some? && next.served.value in round.working
      && (next.served == session.served <==> Kept(session, round))
      && (Gained(Pick(layer, round).value.forwarder) == [] <==> Kept(session, round))
  {
    EchoedValue(lib, layer, session, round);
    if Kept(session, round) {
      HitKeeps(layer, session, round);
    } else if Play(layer, session, round).Some? {
      MissMoves(layer, session, round);
    }
  }

  /** An echoing client's cookie reads as the backend that served it last. */
  lemma EchoedValue(lib: CookieLibrary, layer: Layer, session: Session, round: Round)
    requires Bound(lib, layer, session) && Fits(lib, layer, session, round)
    ensures StickyValue(lib, layer.name, round.header) == session.served
  {
    if session.served.Some? {
      var pieces := Text.Split(round.header.value, ';');
      FirstNamedFinds(lib, layer.name, pieces, lib.echo(session.jar.value));
    }
  }

  lemma HitKeeps(layer: Layer, session: Session, round: Round)
    requires round.working != [] && Kept(session, round)
    requires StickyValue(round.env.cookies, layer.name, round.header) == session.served
    ensures Play(layer, session, round) == Some(session)
    ensures Gained(Pick(layer, round).value.forwarder) == []
  {
  }

  lemma MissMoves(layer: Layer, session: Session, round: Round)
    requires round.working != [] && LeastAsSpecified(round.env)
    requires !Hit(round.env.cookies, layer, round.header, round.working)
    requires Play(layer, session, round).Some?
    ensures var next := Play(layer, session, round).value;
      && next.served.Some? && next.served.value in round.working
      && next.jar == Some(SetCookie(round.env.cookies, layer, next.served.value))
    ensures Gained(Pick(layer, round).value.forwarder) != []
  {
    var s := StickyCookie(layer, round.inner);
    var f := Pick(layer, round).value.forwarder;
    assert f.address in round.working by { SelectsWorking(round.env, s, round.header, round.working); }
    assert Gained(f) != [] && Gained(f)[|Gained(f)| - 1] == SetCookie(round.env.cookies, layer, f.address) by {
      GainedCookies(round.env, s, round.header, round.working);
    }
  }

  ghost predicate AllWorking(rounds: seq<Round>) {
    forall i :: 0 <= i < |rounds| ==> rounds[i].working != []
  }

  ghost function PlayAll(layer: Layer, session: Session, rounds: seq<Round>): Option<Session>
    requires AllWorking(rounds)
  {
    if rounds == [] then Some(session)
    else
      var before := PlayAll(layer, session, rounds[..|rounds| - 1]);
      if before.None? then None else Play(layer, before.value, rounds[|rounds| - 1])
  }

  /** Every round of the run is fit for the session it meets. */
  ghost predicate AllFit(lib: CookieLibrary, layer: Layer, session: Session, rounds: seq<Round>)
    requires AllWorking(rounds)
  {
    forall i :: 0 <= i < |rounds| && PlayAll(layer, session, rounds[..i]).Some? ==>
      Fits(lib, layer, PlayAll(layer, session, rounds[..i]).value, rounds[i])
  }

  /** What holds of a run holds of the run without its last round. */
  lemma ShorterRun(lib: CookieLibrary, layer: Layer, session: Session, rounds: seq<Round>)
    requires rounds != [] && AllWorking(rounds) && AllFit(lib, layer, session, rounds)
    ensures var g := rounds[..|rounds| - 1];
      && AllWorking(g) && AllFit(lib, layer, session, g)
      && (PlayAll(layer, session, g).Some? ==>
            Fits(lib, layer, PlayAll(layer, session, g).value, rounds[|rounds| - 1]))
  {
    var g := rounds[..|rounds| - 1];
    assert forall i :: 0 <= i < |g| ==> rounds[..i] == g[..i];
  }

  lemma {:induction false} StaysBound(lib: CookieLibrary, layer: Layer, session: Session, rounds: seq<Round>)
    requires AllWorking(rounds) && AllFit(lib, layer, session, rounds)
    requires Bound(lib, layer, session) && PlayAll(layer, session, rounds).Some?
    ensures Bound(lib, layer, PlayAll(layer, session, rounds).value)
    ensures rounds != [] ==> PlayAll(layer, session, rounds).value.served.Some?
  {
    if rounds != [] {
      var g := rounds[..|rounds| - 1];
      ShorterRun(lib, layer, session, rounds);
      StaysBound(lib, layer, session, g);
      StickyRound(lib, layer, PlayAll(layer, session, g).value, rounds[|g|]);
    }
  }

  /**
   Stickiness over whole runs: whatever the inner strategy and the layers in it, whatever other
   clients do to them in between, and whatever the other cookies: if the backend that served the
   client after `n` rounds is a working address in every round since, then none of those rounds
   fails and that backend serves them all.
   */
  lemma {:induction false} StickyRun(
    lib: CookieLibrary, layer: Layer, session: Session, rounds: seq<Round>, n: nat, address: string)
    requires AllWorking(rounds) && AllFit(lib, layer, session, rounds) && Bound(lib, layer, session)
    requires 1 <= n <= |rounds| && PlayAll(layer, session, rounds[..n]).Some?
    requires PlayAll(layer, session, rounds[..n]).value.served == Some(address)
    requires forall i :: n <= i < |rounds| ==> address in rounds[i].working
    ensures PlayAll(layer, session, rounds).Some?
    ensures PlayAll(layer, session, rounds).value.served == Some(address)
    ensures PlayAll(layer, session, rounds).value.jar == PlayAll(layer, session, rounds[..n]).value.jar
  {
    if n == |rounds| {
      assert rounds[..n] == rounds;
    } else {
      var g := rounds[..|rounds| - 1];
      assert rounds[..n] == g[..n];
      ShorterRun(lib, layer, session, rounds);
      StickyRun(lib, layer, session, g, n, address);
      StaysOneMore(lib, layer, session, rounds, address);
    }
  }

  /** The last round keeps the backend and the cookie, if the backend works. */
  lemma StaysOneMore(lib: CookieLibrary, layer: Layer, session: Session, rounds: seq<Round>, address: string)
    requires rounds != [] && AllWorking(rounds) && AllFit(lib, layer, session, rounds) && Bound(lib, layer, session)
    requires PlayAll(layer, session, rounds[..|rounds| - 1]).Some?
    requires PlayAll(layer, session, rounds[..|rounds| - 1]).value.served == Some(address)
    requires address in rounds[|rounds| - 1].working
    ensures PlayAll(layer, session, rounds).Some?
    ensures PlayAll(layer, session, rounds).value.served == Some(address)
    ensures PlayAll(layer, session, rounds).value.jar == PlayAll(layer, session, rounds[..|rounds| - 1]).value.jar
  {
    var g := rounds[..|rounds| - 1];
    ShorterRun(lib, layer, session, rounds);
    StaysBound(lib, layer, session, g);
    StickyRound(lib, layer, PlayAll(layer, session, g).value, rounds[|g|]);
  }
}
