/** Positions of a sequence listed in order: which elements of it another one holds, each once. */
module Positions {

  predicate Ascend(at: seq<nat>) {
    forall i, j :: 0 <= i < j < |at| ==> at[i] < at[j]
  }

  /** `at` is the set, in order. */
  ghost predicate Lists(at: seq<nat>, s: set<nat>) {
    Ascend(at) && forall p :: p in at <==> p in s
  }

  lemma {:induction false} ListedOnce(at: seq<nat>, s: set<nat>)
    requires Lists(at, s)
    ensures |at| == |s|
  {
    if at == [] {
      assert s == {};
    } else {
      var n := |at| - 1;
      assert at == at[..n] + [at[n]];
      assert at[n] !in at[..n];
      ListedOnce(at[..n], s - {at[n]});
    }
  }

  /** One position more, past those before it. */
  lemma ListsPush(at: seq<nat>, s: set<nat>, p: nat)
    requires Lists(at, s) && forall q :: q in s ==> q < p
    ensures Lists(at + [p], s + {p})
  {
    assert forall i :: 0 <= i < |at| ==> at[i] in at;
  }

  lemma ListsFront(at: seq<nat>, s: set<nat>)
    requires Lists(at, s) && at != []
    ensures var n := |at| - 1;
      && at[n] in s && (forall p :: p in s ==> p <= at[n])
      && Lists(at[..n], s - {at[n]}) && at == at[..n] + [at[n]]
  {
    var n := |at| - 1;
    assert at == at[..n] + [at[n]];
    assert at[n] !in at[..n];
    forall p | p in s ensures p <= at[n] {
      var k :| 0 <= k < |at| && at[k] == p;
    }
  }

  /** A set is listed in one way only. */
  lemma {:induction false} ListedAlike(a: seq<nat>, b: seq<nat>, s: set<nat>)
    requires Lists(a, s) && Lists(b, s)
    ensures a == b
  {
    ListedOnce(a, s);
    ListedOnce(b, s);
    if a != [] && b != [] {
      ListsFront(a, s);
      ListsFront(b, s);
      hide Lists;
      ListedAlike(a[..|a| - 1], b[..|b| - 1], s - {a[|a| - 1]});
    }
  }
}
