/**
 Round-robin balancing (src/load_balancing/round_robin.rs): a `u32` counter that is advanced
 modulo the number of working addresses, which may differ from call to call.
 */
module RoundRobins {
  import opened Wrappers

  const U32_VALUES: nat := 0x1_0000_0000

  /** The address count as the code sees it, cast to `u32`. */
  function Modulus(n: nat): nat {
    n % U32_VALUES
  }

  /** The next counter, or `None` where the remainder by zero panics. */
  function Advance(rrc: nat, n: nat): Option<nat> {
    if Modulus(n) == 0 then None else Some(((rrc + 1) % U32_VALUES) % Modulus(n))
  }

  /** The counter after calls on address lists of the given lengths. */
  function CounterAfter(lengths: seq<nat>): Option<nat> {
    if lengths == [] then Some(0)
    else
      var before := CounterAfter(lengths[..|lengths| - 1]);
      if before.None? then None else Advance(before.value, lengths[|lengths| - 1])
  }

  /**
   Over every sequence of lengths, including empty and oversized lists: the calls succeed exactly
   as long as no length is a multiple of 2^32, and while they do, the increment stays within
   `u32` and the counter is an index of the list it was computed for.
   */
  lemma {:induction false} CounterSafe(lengths: seq<nat>)
    ensures CounterAfter(lengths).Some? <==> forall i :: 0 <= i < |lengths| ==> Modulus(lengths[i]) != 0
    ensures CounterAfter(lengths).Some? ==> CounterAfter(lengths).value + 1 < U32_VALUES
    ensures CounterAfter(lengths).Some? && lengths != [] ==>
      CounterAfter(lengths).value < lengths[|lengths| - 1]
  {
    if lengths != [] {
      var n := lengths[|lengths| - 1];
      CounterSafe(lengths[..|lengths| - 1]);
      ModulusFits(n);
    }
  }

  lemma ModulusFits(n: nat)
    ensures Modulus(n) < U32_VALUES && Modulus(n) <= n
  {
  }

  lemma AdvanceExact(rrc: nat, n: nat)
    requires rrc + 1 < U32_VALUES && Modulus(n) != 0
    ensures Advance(rrc, n) == Some(Pick(rrc, Modulus(n), 0)) && Advance(rrc, n).value < n
    ensures (rrc + 1) % U32_VALUES == rrc + 1
  {
    ModulusFits(n);
  }

  lemma OneMoreCall(lengths: seq<nat>, n: nat)
    requires CounterAfter(lengths).Some? && Modulus(n) != 0
    ensures CounterAfter(lengths).value + 1 < U32_VALUES
    ensures CounterAfter(lengths + [n]) == Some(Pick(CounterAfter(lengths).value, Modulus(n), 0))
    ensures CounterAfter(lengths + [n]).value < n
  {
    CounterSafe(lengths);
    AdvanceExact(CounterAfter(lengths).value, n);
    assert (lengths + [n])[..|lengths|] == lengths;
  }

  /** The index picked by call number `i` of a series of calls on `n` addresses. */
  function Pick(rrc: nat, n: nat, i: nat): nat
    requires n > 0
  {
    (rrc + 1 + i) % n
  }

  /** After any calls whatsoever, a series of calls on `n` addresses walks through the picks. */
  lemma {:induction false} SeriesFollowsPicks(lengths: seq<nat>, n: nat, k: nat)
    requires CounterAfter(lengths).Some? && 1 <= n < U32_VALUES && k > 0
    ensures CounterAfter(lengths + seq(k, _ => n)) == Some(Pick(CounterAfter(lengths).value, n, k - 1))
  {
    assert Modulus(n) == n;
    var before := lengths + seq(k - 1, _ => n);
    assert lengths + seq(k, _ => n) == before + [n];
    if k == 1 {
      assert before == lengths;
      OneMoreCall(before, n);
    } else {
      SeriesFollowsPicks(lengths, n, k - 1);
      OneMoreCall(before, n);
      PickNext(CounterAfter(lengths).value, n, k - 2);
    }
  }

  lemma PickNext(rrc: nat, n: nat, i: nat)
    requires n > 0
    ensures Pick(Pick(rrc, n, i), n, 0) == Pick(rrc, n, i + 1)
  {
    ModStep(rrc + 1 + i, n);
  }

  lemma ModStep(x: nat, n: nat)
    requires n > 0
    ensures (x % n + 1) % n == (x + 1) % n
  {
    DivStep(x, n);
    if x % n + 1 < n { ModUnique(x % n + 1, n, 0, x % n + 1); } else { ModUnique(n, n, 1, 0); }
  }

  lemma {:induction false} MultiplesApart(p: nat, q: nat, n: nat)
    ensures p < q ==> p * n + n <= q * n
  {
    if p < q {
      assert q * n == (q - 1) * n + n;
      MultiplesApart(p, q - 1, n);
    }
  }

  lemma ModUnique(x: nat, n: nat, q: nat, r: nat)
    requires n > 0 && r < n && x == q * n + r
    ensures x % n == r && x / n == q
  {
    var p := x / n;
    assert x == p * n + x % n;
    MultiplesApart(p, q, n);
    MultiplesApart(q, p, n);
  }

  /** How often index `j` is picked in `k` calls. */
  function Picks(rrc: nat, n: nat, k: nat, j: nat): nat
    requires n > 0
  {
    if k == 0 then 0 else Picks(rrc, n, k - 1, j) + if Pick(rrc, n, k - 1) == j then 1 else 0
  }

  /** The first call that picks `j`. */
  function FirstCall(rrc: nat, n: nat, j: nat): nat
    requires j < n
  {
    var s := Pick(rrc, n, 0);
    if s <= j then j - s else n + j - s
  }

  /** A pick is the first pick advanced by the call number, wrapped once at most. */
  lemma {:induction false} PickSplits(rrc: nat, n: nat, i: nat)
    requires n > 0
    ensures var s := Pick(rrc, n, 0);
      Pick(rrc, n, i) == if s + i % n < n then s + i % n else s + i % n - n
  {
    if i > 0 {
      PickSplits(rrc, n, i - 1);
      DivStep(rrc + i, n);
      DivStep(i - 1, n);
    } else {
      ModUnique(0, n, 0, 0);
    }
  }

  lemma PickAgain(rrc: nat, n: nat, i: nat, j: nat)
    requires j < n
    ensures Pick(rrc, n, i) == j <==> i % n == FirstCall(rrc, n, j)
  {
    PickSplits(rrc, n, i);
  }

  /** The share after `k` calls, if the first pick of the index is call number `f`. */
  function Share(n: nat, k: nat, f: nat): nat
    requires n > 0
  {
    k / n + if f < k % n then 1 else 0
  }

  lemma ShareStep(n: nat, k: nat, f: nat)
    requires f < n
    ensures Share(n, k + 1, f) == Share(n, k, f) + if k % n == f then 1 else 0
  {
    DivStep(k, n);
  }

  /**
   The exact share of every index: in `k` calls it is picked once per full round, and once more
   if its turn in the last round has come.
   */
  lemma {:induction false} ExactShare(rrc: nat, n: nat, k: nat, j: nat)
    requires j < n
    ensures Picks(rrc, n, k, j) == Share(n, k, FirstCall(rrc, n, j))
  {
    if k > 0 {
      ExactShare(rrc, n, k - 1, j);
      assert Pick(rrc, n, k - 1) == j <==> (k - 1) % n == FirstCall(rrc, n, j) by { PickAgain(rrc, n, k - 1, j); }
      ShareStep(n, k - 1, FirstCall(rrc, n, j));
    } else {
      ModUnique(0, n, 0, 0);
    }
  }

  lemma DivStep(x: nat, n: nat)
    requires n > 0
    ensures x % n + 1 < n ==> (x + 1) / n == x / n && (x + 1) % n == x % n + 1
    ensures x % n + 1 == n ==> (x + 1) / n == x / n + 1 && (x + 1) % n == 0
  {
    var q, r := x / n, x % n;
    assert x == q * n + r;
    if r + 1 < n {
      ModUnique(x + 1, n, q, r + 1);
    } else {
      assert (q + 1) * n == q * n + n;
      ModUnique(x + 1, n, q + 1, 0);
    }
  }

  /**
   Fairness from any counter value, even one left by a longer list: `n` calls pick every index
   exactly once, and after any number of calls no two indices differ by more than one.
   */
  lemma Fair(rrc: nat, n: nat, k: nat, i: nat, j: nat)
    requires i < n && j < n
    ensures Picks(rrc, n, n, i) == 1
    ensures Picks(rrc, n, k, i) <= Picks(rrc, n, k, j) + 1
  {
    ExactShare(rrc, n, n, i);
    ExactShare(rrc, n, k, i);
    ExactShare(rrc, n, k, j);
    ModUnique(n, n, 1, 0);
  }

  // ---------------------------------------------------------------- shares of addresses

  /** How often address `a` is picked in `k` calls. */
  function Served(addresses: seq<string>, rrc: nat, k: nat, a: string): nat
    requires addresses != []
  {
    if k == 0 then 0
    else
      Served(addresses, rrc, k - 1, a)
      + if addresses[Pick(rrc, |addresses|, k - 1)] == a then 1 else 0
  }

  /** The picks of the first `m` positions that hold `a`. */
  function PositionPicks(addresses: seq<string>, rrc: nat, k: nat, a: string, m: nat): nat
    requires addresses != [] && m <= |addresses|
  {
    if m == 0 then 0
    else
      PositionPicks(addresses, rrc, k, a, m - 1)
      + if addresses[m - 1] == a then Picks(rrc, |addresses|, k, m - 1) else 0
  }

  lemma {:induction false} OneCallOnePosition(addresses: seq<string>, rrc: nat, k: nat, a: string, m: nat)
    requires addresses != [] && m <= |addresses| && k > 0
    ensures var j := Pick(rrc, |addresses|, k - 1);
      PositionPicks(addresses, rrc, k, a, m) ==
      PositionPicks(addresses, rrc, k - 1, a, m) + if j < m && addresses[j] == a then 1 else 0
  {
    if m > 0 { OneCallOnePosition(addresses, rrc, k, a, m - 1); }
  }

  lemma {:induction false} ServedByPositions(addresses: seq<string>, rrc: nat, k: nat, a: string)
    requires addresses != []
    ensures Served(addresses, rrc, k, a) == PositionPicks(addresses, rrc, k, a, |addresses|)
  {
    if k > 0 {
      ServedByPositions(addresses, rrc, k - 1, a);
      OneCallOnePosition(addresses, rrc, k, a, |addresses|);
    } else {
      NoCallsNoPicks(addresses, rrc, a, |addresses|);
    }
  }

  lemma {:induction false} NoCallsNoPicks(addresses: seq<string>, rrc: nat, a: string, m: nat)
    requires addresses != [] && m <= |addresses|
    ensures PositionPicks(addresses, rrc, 0, a, m) == 0
  {
    if m > 0 { NoCallsNoPicks(addresses, rrc, a, m - 1); }
  }

  lemma {:induction false} RoundPicks(addresses: seq<string>, rrc: nat, a: string, m: nat)
    requires addresses != [] && m <= |addresses|
    ensures PositionPicks(addresses, rrc, |addresses|, a, m) == multiset(addresses[..m])[a]
  {
    if m > 0 {
      RoundPicks(addresses, rrc, a, m - 1);
      Fair(rrc, |addresses|, 0, m - 1, m - 1);
      assert addresses[..m] == addresses[..m - 1] + [addresses[m - 1]];
    }
  }

  /** One round serves every address as often as it is listed, from any counter value. */
  lemma RoundServesByMultiplicity(addresses: seq<string>, rrc: nat, a: string)
    requires addresses != []
    ensures Served(addresses, rrc, |addresses|, a) == multiset(addresses)[a]
  {
    ServedByPositions(addresses, rrc, |addresses|, a);
    RoundPicks(addresses, rrc, a, |addresses|);
    assert addresses[..|addresses|] == addresses;
  }

  class RoundRobin {
    var rrc: nat
    /** A call has panicked while it held the mutex of the counter. */
    var poisoned: bool
    ghost var lengths: seq<nat>

    /** The counter is what the lengths of the calls so far make of it. */
    ghost predicate Valid()
      reads this
    {
      CounterAfter(lengths) == if poisoned then None else Some(rrc)
    }

    constructor ()
      ensures Valid() && rrc == 0 && !poisoned && lengths == []
    {
      rrc := 0;
      poisoned := false;
      lengths := [];
    }

    /**
     `None` is a panic: on an empty list, on one whose length is a multiple of 2^32, and on every
     call after such a one, because the mutex is then poisoned.
     */
    method SelectBackend(addresses: seq<string>) returns (address: Option<string>)
      requires Valid()
      modifies this
      ensures Valid() && lengths == old(lengths) + [|addresses|]
      ensures poisoned <==> address.None?
      ensures address.None? <==> old(poisoned) || Modulus(|addresses|) == 0
      ensures address.None? ==> rrc == old(rrc)
      ensures address.Some? ==>
        && rrc == Pick(old(rrc), Modulus(|addresses|), 0) && rrc < |addresses|
        && address == Some(addresses[rrc])
    {
      assert (lengths + [|addresses|])[..|lengths|] == lengths;
      var n := Modulus(|addresses|);
      if !poisoned && n != 0 {
        OneMoreCall(lengths, |addresses|);
        AdvanceExact(rrc, |addresses|);
        rrc := ((rrc + 1) % U32_VALUES) % n;
        address := Some(addresses[rrc]);
      } else {
        poisoned := true;
        address := None;
      }
      lengths := lengths + [|addresses|];
    }
  }
}
