/** Sublists: the elements of a list at some of its places, in order. */
module Selections {
  ghost predicate Ascending(ks: seq<nat>, n: nat) {
    && (forall i :: 0 <= i < |ks| ==> ks[i] < n)
    && (forall i, j :: 0 <= i < j < |ks| ==> ks[i] < ks[j])
  }

  /** `chosen` holds the elements of `all` at the places `ks`, each place once and in order. */
  ghost predicate Picks<T>(all: seq<T>, chosen: seq<T>, ks: seq<nat>) {
    && |ks| == |chosen| && Ascending(ks, |all|)
    && forall i :: 0 <= i < |ks| ==> chosen[i] == all[ks[i]]
  }

  /** Going on to one more element, picked or not. */
  lemma PicksOn<T>(all: seq<T>, chosen: seq<T>, ks: seq<nat>, pick: bool)
    requires |all| > 0 && Picks(all[..|all| - 1], chosen, ks)
    ensures Picks(all, chosen + if pick then [all[|all| - 1]] else [],
                  ks + if pick then [|all| - 1] else [])
    ensures forall k: nat :: k in ks + (if pick then [|all| - 1] else []) <==> k in ks || (pick && k == |all| - 1)
  {
    var front := all[..|all| - 1];
    assert forall i :: 0 <= i < |ks| ==> front[ks[i]] == all[ks[i]];
  }
}
