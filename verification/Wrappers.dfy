/** What every component uses: optional values, and the positions of a selection from a list. */
module Wrappers {
  datatype Option<+T> = None | Some(value: T)

  /** `ps` are the positions of the set flags, in increasing order. */
  ghost predicate PositionsOf(ps: seq<nat>, flags: seq<bool>) {
    && (forall i, j :: 0 <= i < j < |ps| ==> ps[i] < ps[j])
    && (forall k: nat :: k in ps <==> k < |flags| && flags[k])
  }

  /** One more flag: its position is added at the end if it is set. */
  lemma OneMorePosition(ps: seq<nat>, flags: seq<bool>, last: bool)
    requires PositionsOf(ps, flags)
    ensures PositionsOf(if last then ps + [|flags|] else ps, flags + [last])
  {
    assert forall i :: 0 <= i < |ps| ==> ps[i] in ps;
  }
}
