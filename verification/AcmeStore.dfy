/**
 The ACME challenge store (src/acme.rs): challenges are pushed and removed by any number of
 concurrent receive loops, and looked up by requests for the HTTP-01 well-known path (section 8.3
 of RFC 8555).
 */
module AcmeStore {
  import opened Wrappers
  import Text

  datatype OpenChallenge = OpenChallenge(token: string, proof: string)

  type Store = seq<OpenChallenge>

  function Lookup(store: Store, token: string): Option<string> {
    if store == [] then None
    else if store[0].token == token then Some(store[0].proof)
    else Lookup(store[1..], token)
  }

  /** Removes the first challenge with this token, if there is one. */
  function RemoveFirst(store: Store, token: string): Store {
    if store == [] then []
    else if store[0].token == token then store[1..]
    else [store[0]] + RemoveFirst(store[1..], token)
  }

  /** How often a token is stored. */
  function Stored(store: Store, token: string): nat {
    if store == [] then 0 else (if store[0].token == token then 1 else 0) + Stored(store[1..], token)
  }

  lemma {:induction false} StoredAppend(store: Store, c: OpenChallenge, token: string)
    ensures Stored(store + [c], token) == Stored(store, token) + if c.token == token then 1 else 0
  {
    if store != [] {
      assert (store + [c])[1..] == store[1..] + [c];
      StoredAppend(store[1..], c, token);
    }
  }

  lemma {:induction false} StoredRemove(store: Store, t: string, token: string)
    ensures Stored(RemoveFirst(store, t), token) ==
      Stored(store, token) - if t == token && Stored(store, token) > 0 then 1 else 0
  {
    if store != [] && store[0].token != t {
      StoredRemove(store[1..], t, token);
      assert RemoveFirst(store, t)[1..] == RemoveFirst(store[1..], t);
    }
  }

  lemma {:induction false} LookupAppend(store: Store, c: OpenChallenge, token: string)
    ensures Lookup(store + [c], token) ==
      if Lookup(store, token).Some? then Lookup(store, token)
      else if c.token == token then Some(c.proof) else None
    ensures Lookup(store, token).Some? <==> Stored(store, token) > 0
  {
    if store != [] {
      assert (store + [c])[1..] == store[1..] + [c];
      LookupAppend(store[1..], c, token);
    }
  }

  /** No challenge among the messages has a token that is stored. */
  ghost predicate NewTokens(store: Store, messages: seq<Message>) {
    forall i :: 0 <= i < |messages| && messages[i].Challenge? ==> Lookup(store, messages[i].token).None?
  }

  /** Removing undoes appending, if the token was not stored before. */
  lemma {:induction false} RemoveAppended(store: Store, c: OpenChallenge)
    ensures Lookup(store, c.token).None? ==> RemoveFirst(store + [c], c.token) == store
  {
    if store != [] {
      assert (store + [c])[1..] == store[1..] + [c];
      RemoveAppended(store[1..], c);
    } else {
      assert ([] + [c])[1..] == store;
    }
  }

  /** Going past a challenge with another token. */
  lemma RemoveSkips(store: Store, token: string, i: nat)
    requires i < |store| && store[i].token != token
    ensures store[..i] + RemoveFirst(store[i..], token) == store[..i + 1] + RemoveFirst(store[i + 1..], token)
  {
    assert store[i..][1..] == store[i + 1..];
    assert RemoveFirst(store[i..], token) == [store[i]] + RemoveFirst(store[i + 1..], token);
    assert store[..i + 1] == store[..i] + [store[i]];
  }

  // ---------------------------------------------------------------- concurrent receive loops

  datatype Message = Challenge(token: string, proof: string) | Certificate(result: string)

  /**
   Where a receive loop is: before its first message, about to act on a message, waiting with its
   challenge stored, about to remove that challenge, done, or panicked because its channel closed
   without a certificate, possibly with a challenge left behind.
   */
  datatype Loop =
    | Fresh
    | Holding(message: Message)
    | Awaiting(token: string, proof: string)
    | Releasing(token: string, proof: string, next: Message)
    | Returned
    | Panicked
    | Abandoned(token: string, proof: string)

  datatype State = State(store: Store, loops: map<nat, Loop>)

  /** A message arrives, or a loop takes its next step; an event that cannot happen changes nothing. */
  datatype Event =
    | Spawn(id: nat)
    | Receive(id: nat, message: Message)
    | Close(id: nat)
    | Proceed(id: nat)

  predicate Enabled(s: State, e: Event) {
    match e
    case Spawn(id) => id !in s.loops
    case Receive(id, _) => id in s.loops && (s.loops[id].Fresh? || s.loops[id].Awaiting?)
    case Close(id) => id in s.loops && (s.loops[id].Fresh? || s.loops[id].Awaiting?)
    case Proceed(id) => id in s.loops && (s.loops[id].Holding? || s.loops[id].Releasing?)
  }

  function Next(s: State, e: Event): State {
    if !Enabled(s, e) then s
    else match e
    case Spawn(id) => s.(loops := s.loops[id := Fresh])
    case Receive(id, m) =>
      var l := s.loops[id];
      s.(loops := s.loops[id := if l.Fresh? then Holding(m) else Releasing(l.token, l.proof, m)])
    case Close(id) =>
      var l := s.loops[id];
      s.(loops := s.loops[id := if l.Fresh? then Panicked else Abandoned(l.token, l.proof)])
    case Proceed(id) =>
      match s.loops[id]
      case Holding(Challenge(t, p)) =>
        State(s.store + [OpenChallenge(t, p)], s.loops[id := Awaiting(t, p)])
      case Holding(Certificate(_)) => s.(loops := s.loops[id := Returned])
      case Releasing(t, p, m) => State(RemoveFirst(s.store, t), s.loops[id := Holding(m)])
      case _ => s
  }

  const START := State([], map[])

  function After(es: seq<Event>): State {
    if es == [] then START else Next(After(es[..|es| - 1]), es[|es| - 1])
  }

  /** The loop's challenge is in the store. */
  predicate HasStored(l: Loop) {
    l.Awaiting? || l.Releasing? || l.Abandoned?
  }

  predicate Holds(l: Loop, token: string) {
    HasStored(l) && l.token == token
  }

  ghost function Holders(loops: map<nat, Loop>, token: string): set<nat> {
    set id | id in loops && Holds(loops[id], token)
  }

  /** Every token is stored exactly as often as loops have a challenge with it. */
  ghost predicate Conserved(s: State) {
    forall token :: Stored(s.store, token) == |Holders(s.loops, token)|
  }

  lemma HoldersSet(loops: map<nat, Loop>, id: nat, l: Loop, token: string)
    ensures Holders(loops[id := l], token) - {id} == Holders(loops, token) - {id}
    ensures id in Holders(loops[id := l], token) <==> Holds(l, token)
  {
  }

  lemma SizeWith(s: set<nat>, id: nat)
    ensures |s| == |s - {id}| + if id in s then 1 else 0
  {
    if id in s { assert s == (s - {id}) + {id}; } else { assert s == s - {id}; }
  }

  lemma HoldersUpdate(loops: map<nat, Loop>, id: nat, l: Loop, token: string)
    ensures var before := if id in loops && Holds(loops[id], token) then 1 else 0;
      |Holders(loops[id := l], token)| == |Holders(loops, token)| - before + if Holds(l, token) then 1 else 0
  {
    HoldersSet(loops, id, l, token);
    SizeWith(Holders(loops, token), id);
    SizeWith(Holders(loops[id := l], token), id);
  }

  lemma StepConserves(s: State, e: Event, token: string)
    requires Stored(s.store, token) == |Holders(s.loops, token)|
    ensures Stored(Next(s, e).store, token) == |Holders(Next(s, e).loops, token)|
  {
    if !Enabled(s, e) { return; }
    HoldersUpdate(s.loops, e.id, Next(s, e).loops[e.id], token);
    if e.Proceed? {
      match s.loops[e.id]
      case Holding(Challenge(t, p)) => StoredAppend(s.store, OpenChallenge(t, p), token);
      case Releasing(t, _, _) =>
        StoredRemove(s.store, t, token);
        if t == token { assert e.id in Holders(s.loops, token); }
      case _ =>
    }
  }

  /** Conservation under every interleaving. */
  lemma {:induction false} RunsConserve(es: seq<Event>)
    ensures Conserved(After(es))
  {
    if es == [] {
      forall token ensures Holders(START.loops, token) == {} { }
    } else {
      var s := After(es[..|es| - 1]);
      RunsConserve(es[..|es| - 1]);
      forall token ensures Stored(After(es).store, token) == |Holders(After(es).loops, token)| {
        assert Stored(s.store, token) == |Holders(s.loops, token)|;
        StepConserves(s, es[|es| - 1], token);
      }
    }
  }

  /** Once no loop is waiting, and none was abandoned by its channel, nothing is left in the store. */
  lemma NothingLeftBehind(es: seq<Event>)
    requires forall id :: id in After(es).loops ==> !HasStored(After(es).loops[id])
    ensures After(es).store == []
  {
    var s := After(es);
    RunsConserve(es);
    forall token ensures Stored(s.store, token) == 0 {
      assert Holders(s.loops, token) == {};
    }
    StoresNothing(s.store);
  }

  lemma StoresNothing(store: Store)
    requires forall token :: Stored(store, token) == 0
    ensures store == []
  {
    assert store == [] || Stored(store, store[0].token) == 0;
  }

  // ---------------------------------------------------------------- what a loop does with its messages

  /** The messages a loop has received, in order. */
  function Received(es: seq<Event>, id: nat): seq<Message> {
    if es == [] then []
    else
      var g, e := es[..|es| - 1], es[|es| - 1];
      Received(g, id) + if e.Receive? && e.id == id && Enabled(After(g), e) then [e.message] else []
  }

  /**
   Where a loop can be by its messages: it acts on the last one, and what it has stored or is about
   to remove is the challenge last acted on. It has returned only on a certificate.
   */
  ghost predicate Follows(l: Loop, ms: seq<Message>) {
    && (ms != [] ==> forall i :: 0 <= i < |ms| - 1 ==> ms[i].Challenge?)
    && match l
       case Fresh => ms == []
       case Panicked => ms == []
       case Holding(m) => ms != [] && ms[|ms| - 1] == m
       case Awaiting(t, p) => ms != [] && ms[|ms| - 1] == Challenge(t, p)
       case Abandoned(t, p) => ms != [] && ms[|ms| - 1] == Challenge(t, p)
       case Releasing(t, p, m) => |ms| >= 2 && ms[|ms| - 1] == m && ms[|ms| - 2] == Challenge(t, p)
       case Returned => ms != [] && ms[|ms| - 1].Certificate?
  }

  lemma StepFollows(s: State, e: Event, id: nat, ms: seq<Message>)
    requires if id in s.loops then Follows(s.loops[id], ms) else ms == []
    ensures var ms' := ms + if e.Receive? && e.id == id && Enabled(s, e) then [e.message] else [];
      if id in Next(s, e).loops then Follows(Next(s, e).loops[id], ms') else ms' == []
  {
    assert ms + [] == ms;
  }

  /** Under every interleaving, each loop is where its own messages bring it. */
  lemma {:induction false} LoopsFollow(es: seq<Event>, id: nat)
    ensures if id in After(es).loops then Follows(After(es).loops[id], Received(es, id)) else Received(es, id) == []
  {
    if es != [] {
      var g := es[..|es| - 1];
      LoopsFollow(g, id);
      StepFollows(After(g), es[|es| - 1], id, Received(g, id));
    }
  }

  /** A message at a loop that can receive one: it is dealt with in two or three steps. */
  function Handled(s: State, id: nat, m: Message): State {
    var received := Next(s, Receive(id, m));
    var releases := id in received.loops && received.loops[id].Releasing?;
    Next(if releases then Next(received, Proceed(id)) else received, Proceed(id))
  }

  /**
   Undisturbed, a loop removes its stored challenge, if it has one, and then returns on a
   certificate or stores the new challenge and waits; if the channel closes instead, it panics and
   what it has stored stays. The other loops stay as they are.
   */
  lemma MessageHandled(s: State, id: nat, m: Message)
    requires id in s.loops && (s.loops[id].Fresh? || s.loops[id].Awaiting?)
    ensures var l, s' := s.loops[id], Handled(s, id, m);
      var kept := if l.Awaiting? then RemoveFirst(s.store, l.token) else s.store;
      match m
      case Certificate(_) => s' == State(kept, s.loops[id := Returned])
      case Challenge(t, p) => s' == State(kept + [OpenChallenge(t, p)], s.loops[id := Awaiting(t, p)])
    ensures Next(s, Close(id)) == State(s.store, s.loops[id :=
      match s.loops[id]
      case Awaiting(t, p) => Abandoned(t, p)
      case _ => Panicked])
  {
    var l := if m.Certificate? then Returned else Awaiting(m.token, m.proof);
    var waits := if s.loops[id].Fresh? then Holding(m) else Releasing(s.loops[id].token, s.loops[id].proof, m);
    assert Next(s, Receive(id, m)).loops == s.loops[id := waits];
    assert s.loops[id := waits][id := Holding(m)] == s.loops[id := Holding(m)];
    assert s.loops[id := Holding(m)][id := l] == s.loops[id := l];
    assert s.loops[id := waits][id := l] == s.loops[id := l];
  }

  // ---------------------------------------------------------------- lookup during the wait

  /** The event pushes a challenge. */
  predicate Stores(s: State, e: Event) {
    e.Proceed? && e.id in s.loops && s.loops[e.id].Holding? && s.loops[e.id].message.Challenge?
  }

  /** The token about to be stored is not stored, or stored with the same proof. */
  predicate Agrees(s: State, e: Event) {
    Stores(s, e) ==>
      var m := s.loops[e.id].message;
      Lookup(s.store, m.token) in {None, Some(m.proof)}
  }

  ghost predicate AgreeingTokens(es: seq<Event>) {
    forall n :: 0 <= n < |es| ==> Agrees(After(es[..n]), es[n])
  }

  /** Every loop with a stored challenge has it answered with its own proof. */
  ghost predicate Served(s: State) {
    forall id :: id in s.loops && HasStored(s.loops[id]) ==>
      Lookup(s.store, s.loops[id].token) == Some(s.loops[id].proof)
  }

  /** No two stored proofs of one token differ. */
  ghost predicate OneProofEach(store: Store) {
    forall c :: c in store ==> Lookup(store, c.token) == Some(c.proof)
  }

  lemma TwoHolders(loops: map<nat, Loop>, i: nat, j: nat, token: string)
    requires i in loops && j in loops && i != j && Holds(loops[i], token) && Holds(loops[j], token)
    ensures |Holders(loops, token)| >= 2
  {
    var rest := Holders(loops, token) - {i} - {j};
    assert Holders(loops, token) == rest + {i} + {j};
  }

  lemma {:induction false} LookupIsStored(store: Store, token: string)
    ensures Lookup(store, token).Some? <==> Stored(store, token) > 0
    ensures Lookup(store, token).Some? ==> OpenChallenge(token, Lookup(store, token).value) in store
  {
    if store != [] && store[0].token != token { LookupIsStored(store[1..], token); }
  }

  lemma {:induction false} RemovedIsStored(store: Store, t: string, c: OpenChallenge)
    requires c in RemoveFirst(store, t)
    ensures c in store
  {
    if store[0].token != t && c != store[0] { RemovedIsStored(store[1..], t, c); }
  }

  /** Removing one of several equal challenges leaves the lookup as it was. */
  lemma RemoveKeepsAnswer(store: Store, t: string, token: string)
    requires OneProofEach(store) && Stored(RemoveFirst(store, t), token) > 0
    ensures Lookup(RemoveFirst(store, t), token) == Lookup(store, token)
  {
    LookupIsStored(RemoveFirst(store, t), token);
    var c := OpenChallenge(token, Lookup(RemoveFirst(store, t), token).value);
    RemovedIsStored(store, t, c);
  }

  lemma {:induction false} StoredIfMember(store: Store, c: OpenChallenge)
    requires c in store
    ensures Stored(store, c.token) > 0
  {
    if store[0] != c { StoredIfMember(store[1..], c); }
  }

  lemma RemoveKeepsOneProof(store: Store, t: string)
    requires OneProofEach(store)
    ensures OneProofEach(RemoveFirst(store, t))
  {
    forall c | c in RemoveFirst(store, t) ensures Lookup(RemoveFirst(store, t), c.token) == Some(c.proof) {
      RemovedIsStored(store, t, c);
      StoredIfMember(RemoveFirst(store, t), c);
      RemoveKeepsAnswer(store, t, c.token);
    }
  }

  lemma AppendKeepsOneProof(store: Store, c: OpenChallenge)
    requires OneProofEach(store) && Lookup(store, c.token) in {None, Some(c.proof)}
    ensures OneProofEach(store + [c])
  {
    forall d | d in store + [c] ensures Lookup(store + [c], d.token) == Some(d.proof) {
      LookupAppend(store, c, d.token);
    }
  }

  lemma StepOneProof(s: State, e: Event)
    requires OneProofEach(s.store) && Agrees(s, e)
    ensures OneProofEach(Next(s, e).store)
  {
    if Enabled(s, e) && e.Proceed? {
      match s.loops[e.id]
      case Holding(Challenge(t, p)) => AppendKeepsOneProof(s.store, OpenChallenge(t, p));
      case Releasing(t, _, _) => RemoveKeepsOneProof(s.store, t);
      case _ =>
    }
  }

  lemma StepServes(s: State, e: Event, id: nat)
    requires Conserved(s) && Served(s) && OneProofEach(s.store) && Agrees(s, e)
    requires id in Next(s, e).loops && HasStored(Next(s, e).loops[id])
    ensures var s' := Next(s, e); Lookup(s'.store, s'.loops[id].token) == Some(s'.loops[id].proof)
  {
    if !Enabled(s, e) { return; }
    var token := Next(s, e).loops[id].token;
    if e.Proceed? {
      match s.loops[e.id]
      case Holding(Challenge(t, p)) => LookupAppend(s.store, OpenChallenge(t, p), token);
      case Releasing(t, _, _) =>
        assert Stored(s.store, token) == |Holders(s.loops, token)|;
        LookupIsStored(s.store, token);
        if t == token { TwoHolders(s.loops, e.id, id, token); }
        StoredRemove(s.store, t, token);
        RemoveKeepsAnswer(s.store, t, token);
      case _ =>
    }
  }

  /** While no token is stored with two proofs, every stored challenge is answered with its own. */
  lemma {:induction false} RunsServe(es: seq<Event>)
    requires AgreeingTokens(es)
    ensures Served(After(es)) && OneProofEach(After(es).store)
  {
    if es != [] {
      var g, e := es[..|es| - 1], es[|es| - 1];
      assert forall n :: 0 <= n < |g| ==> es[..n] == g[..n];
      RunsServe(g);
      RunsConserve(g);
      StepOneProof(After(g), e);
      var s := After(es);
      forall id | id in s.loops && HasStored(s.loops[id])
        ensures Lookup(s.store, s.loops[id].token) == Some(s.loops[id].proof)
      {
        StepServes(After(g), e, id);
      }
    }
  }

  /** A challenge stored after one with the same token and another proof is answered with that one. */
  lemma LaterProofHidden(s: State, e: Event)
    requires !Agrees(s, e)
    ensures var s' := Next(s, e);
      && s'.loops[e.id].Awaiting?
      && Lookup(s'.store, s'.loops[e.id].token) == Lookup(s.store, s'.loops[e.id].token)
      && Lookup(s'.store, s'.loops[e.id].token) != Some(s'.loops[e.id].proof)
  {
    var m := s.loops[e.id].message;
    LookupAppend(s.store, OpenChallenge(m.token, m.proof), m.token);
  }

  /**
   The exact condition: every waiting loop is answered with its own proof at every moment of a run
   if and only if no loop ever stores a token that is stored with another proof.
   */
  lemma ServedExactlyIfAgreeing(es: seq<Event>)
    ensures AgreeingTokens(es) <==> forall n :: 0 <= n <= |es| ==> Served(After(es[..n]))
  {
    if AgreeingTokens(es) {
      forall n | 0 <= n <= |es| ensures Served(After(es[..n])) {
        assert forall k :: 0 <= k < n ==> es[..n][..k] == es[..k];
        RunsServe(es[..n]);
      }
    } else {
      var n :| 0 <= n < |es| && !Agrees(After(es[..n]), es[n]);
      LaterProofHidden(After(es[..n]), es[n]);
      assert es[..n + 1][..n] == es[..n];
      assert After(es[..n + 1]) == Next(After(es[..n]), es[n]);
      assert !Served(After(es[..n + 1]));
    }
  }

  /** Two loops are sent the same token with different proofs. */
  const REPEATED: seq<Event> := [
    Spawn(0), Receive(0, Challenge("t", "p")), Proceed(0),
    Spawn(1), Receive(1, Challenge("t", "q")), Proceed(1)]

  function RepeatedState(n: nat): State
    requires n <= 6
  {
    if n == 0 then START
    else if n == 1 then State([], map[0 := Fresh])
    else if n == 2 then State([], map[0 := Holding(Challenge("t", "p"))])
    else if n == 3 then State([OpenChallenge("t", "p")], map[0 := Awaiting("t", "p")])
    else if n == 4 then State([OpenChallenge("t", "p")], map[0 := Awaiting("t", "p"), 1 := Fresh])
    else if n == 5 then
      State([OpenChallenge("t", "p")], map[0 := Awaiting("t", "p"), 1 := Holding(Challenge("t", "q"))])
    else
      State([OpenChallenge("t", "p"), OpenChallenge("t", "q")],
            map[0 := Awaiting("t", "p"), 1 := Awaiting("t", "q")])
  }

  lemma {:induction false} RepeatedStates(n: nat)
    requires n <= 6
    ensures After(REPEATED[..n]) == RepeatedState(n)
  {
    if n > 0 {
      RepeatedStates(n - 1);
      assert REPEATED[..n][..n - 1] == REPEATED[..n - 1];
      assert Next(RepeatedState(n - 1), REPEATED[n - 1]) == RepeatedState(n);
    }
  }

  /** A repeated token is answered with the earlier proof, not with the one its loop waits on. */
  lemma RepeatedTokenMismatch()
    ensures 1 in After(REPEATED).loops && After(REPEATED).loops[1] == Awaiting("t", "q")
    ensures Lookup(After(REPEATED).store, "t") == Some("p")
  {
    RepeatedStates(6);
    assert REPEATED[..6] == REPEATED;
  }

  // ---------------------------------------------------------------- answering requests

  const PREFIX := "/.well-known/acme-challenge/"

  datatype Reply = Reply(status: nat, body: string)

  /** `respond_to_challenge`: other paths are not answered here. */
  function RespondToChallenge(store: Store, path: string): Option<Reply> {
    if !(PREFIX <= path) then None
    else
      var parts := Text.Split(path, '/');
      var proof := Lookup(store, parts[|parts| - 1]);
      Some(if proof.Some? then Reply(200, proof.value) else Reply(404, "404 - page not found"))
  }

  /**
   Exactly the paths below the well-known one are answered: with the proof stored for what follows
   the last slash, and else with 404.
   */
  lemma RespondExact(store: Store, path: string, parent: string, token: string)
    ensures RespondToChallenge(store, path) == None <==> !("/.well-known/acme-challenge/" <= path)
    ensures "/.well-known/acme-challenge/" <= path && path == parent + "/" + token && '/' !in token ==>
      RespondToChallenge(store, path) ==
      match Lookup(store, token)
      case Some(proof) => Some(Reply(200, proof))
      case None => Some(Reply(404, "404 - page not found"))
  {
    if path == parent + "/" + token && '/' !in token {
      Text.SplitLast(parent, '/', token);
    }
  }

  lemma TokenOfPath(store: Store, token: string)
    requires '/' !in token
    ensures RespondToChallenge(store, PREFIX + token) ==
      match Lookup(store, token)
      case Some(proof) => Some(Reply(200, proof))
      case None => Some(Reply(404, "404 - page not found"))
  {
    var s := PREFIX[..|PREFIX| - 1];
    assert PREFIX + token == s + "/" + token;
    RespondExact(store, PREFIX + token, s, token);
  }

  /**
   While a loop waits, a request for its token is answered with its proof, under every
   interleaving of loops in which no token is stored with two proofs.
   */
  lemma ProofServedDuringWait(es: seq<Event>, id: nat)
    requires AgreeingTokens(es)
    requires id in After(es).loops && HasStored(After(es).loops[id])
    requires '/' !in After(es).loops[id].token
    ensures RespondToChallenge(After(es).store, PREFIX + After(es).loops[id].token)
         == Some(Reply(200, After(es).loops[id].proof))
  {
    var token := After(es).loops[id].token;
    RunsServe(es);
    TokenOfPath(After(es).store, token);
  }

  /** Under every interleaving, a token is answered 200 while some loop holds it, and else 404. */
  lemma AnsweredExactlyWhileHeld(es: seq<Event>, token: string)
    requires '/' !in token
    ensures var reply := RespondToChallenge(After(es).store, PREFIX + token);
      && reply.Some? && reply.value.status in {200, 404}
      && (reply.value.status == 200 <==> Holders(After(es).loops, token) != {})
  {
    RunsConserve(es);
    TokenOfPath(After(es).store, token);
    LookupAppend(After(es).store, OpenChallenge("", ""), token);
    assert Stored(After(es).store, token) == |Holders(After(es).loops, token)|;
  }

  // ---------------------------------------------------------------- the handler

  class AcmeHandler {
    var challenges: Store

    constructor ()
      ensures challenges == []
    {
      challenges := [];
    }

    method AddChallenge(token: string, proof: string)
      modifies this
      ensures challenges == old(challenges) + [OpenChallenge(token, proof)]
    {
      challenges := challenges + [OpenChallenge(token, proof)];
    }

    method GetProofForChallenge(token: string) returns (proof: Option<string>)
      ensures proof == Lookup(challenges, token)
    {
      var i := 0;
      while i < |challenges|
        invariant 0 <= i <= |challenges|
        invariant Lookup(challenges, token) == Lookup(challenges[i..], token)
      {
        if challenges[i].token == token { return Some(challenges[i].proof); }
        assert challenges[i..][1..] == challenges[i + 1..];
        i := i + 1;
      }
      proof := None;
    }

    method RemoveChallenge(token: string)
      modifies this
      ensures challenges == RemoveFirst(old(challenges), token)
    {
      var i := 0;
      while i < |challenges| && challenges[i].token != token
        invariant 0 <= i <= |challenges|
        invariant challenges == old(challenges)
        invariant RemoveFirst(challenges, token) == challenges[..i] + RemoveFirst(challenges[i..], token)
      {
        RemoveSkips(challenges, token, i);
        i := i + 1;
      }
      if i < |challenges| {
        assert challenges[i..][1..] == challenges[i + 1..];
        assert RemoveFirst(challenges, token) == challenges[..i] + challenges[i + 1..];
        challenges := challenges[..i] + challenges[i + 1..];
      } else {
        assert challenges[i..] == [] && challenges[..i] == challenges;
      }
    }

    /**
     The receive loop run on its own: it returns the first certificate, leaving every token stored
     as often as before; `None` is the panic on a channel closed without one, which leaves the last
     challenge in the store. If none of its tokens was stored before, the store is otherwise as it
     was, in every proof and in its order.
     */
    method ReceiveLoop(messages: seq<Message>) returns (result: Option<string>)
      modifies this
      ensures result.Some? <==> exists i :: 0 <= i < |messages| && messages[i].Certificate?
      ensures result.Some? ==> exists i ::
        && 0 <= i < |messages| && messages[i] == Certificate(result.value)
        && forall j :: 0 <= j < i ==> messages[j].Challenge?
      ensures result.Some? ==> forall t :: Stored(challenges, t) == old(Stored(challenges, t))
      ensures result.None? ==> forall t ::
        Stored(challenges, t) ==
        old(Stored(challenges, t)) + if messages != [] && messages[|messages| - 1].token == t then 1 else 0
      ensures NewTokens(old(challenges), messages) && (result.Some? || messages == []) ==>
        challenges == old(challenges)
      ensures NewTokens(old(challenges), messages) && result.None? && messages != [] ==>
        var last := messages[|messages| - 1];
        challenges == old(challenges) + [OpenChallenge(last.token, last.proof)]
    {
      if messages == [] { return None; }
      var n := 0;
      while true
        invariant n < |messages|
        invariant forall j :: 0 <= j < n ==> messages[j].Challenge?
        invariant forall t :: Stored(challenges, t) == old(Stored(challenges, t))
        invariant NewTokens(old(challenges), messages) ==> challenges == old(challenges)
        decreases |messages| - n
      {
        match messages[n]
        case Certificate(r) => return Some(r);
        case Challenge(token, proof) =>
          ghost var before := challenges;
          AddChallenge(token, proof);
          n := n + 1;
          if n == |messages| {
            forall t ensures Stored(challenges, t) == Stored(before, t) + if token == t then 1 else 0 {
              StoredAppend(before, OpenChallenge(token, proof), t);
            }
            return None;
          }
          forall t ensures Stored(RemoveFirst(challenges, token), t) == Stored(before, t) {
            StoredAppend(before, OpenChallenge(token, proof), t);
            StoredRemove(challenges, token, t);
          }
          RemoveAppended(before, OpenChallenge(token, proof));
          RemoveChallenge(token);
      }
    }
  }
}
