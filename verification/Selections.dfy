/** Lists made by going over a sequence and keeping some of its elements. */
module Selections {

  /** `at` lists exactly these positions, in ascending order. */
  ghost predicate Picks(at: seq<nat>, positions: set<nat>) {
    (forall i, j :: 0 <= i < j < |at| ==> at[i] < at[j]) && forall i :: i in at <==> i in positions
  }

  /** Going on to position `n`, which is kept or not. */
  lemma PicksNext(at: seq<nat>, before: set<nat>, n: nat, keep: bool)
    requires Picks(at, before) && forall i :: i in before ==> i < n
    ensures Picks(at + if keep then [n] else [], before + if keep then {n} else {})
  {
    forall i | 0 <= i < |at|
      ensures at[i] < n
    {
      assert at[i] in at;
    }
  }
}
