/** What the retire, insert and update steps do to a row, followed row by row. */
module RefreshRows {
  import opened Wrappers
  import opened Figures
  import opened RefreshPlan
  import opened RefreshApply
  import opened RefreshPlaces

  // ----- The refilled rows are stored in id order -----

  lemma {:induction false} KeepInOrder(facts: seq<Fact>, gone: set<int>)
    requires InIdOrder(facts)
    ensures InIdOrder(Keep(facts, gone))
  {
    hide Count, IndexOf, Gone;
    if facts != [] {
      var front, last := facts[..|facts| - 1], facts[|facts| - 1];
      KeepInOrder(front, gone);
      KeepMembers(front, gone);
      assert forall f :: f in Keep(front, gone) ==> f in front && f.id < last.id;
    }
  }

  lemma RefilledInOrder(text: seq<Fact>, target: seq<Fact>, next: int)
    requires Storable(target, next)
    ensures InIdOrder(Refilled(text, target, next))
  {
    hide Count, IndexOf, Keep, Gone;
    KeepInOrder(target, Departed(text, target));
    KeepMembers(target, Departed(text, target));
    var kept := Survivors(text, target);
    forall i | 0 <= i < |kept| ensures kept[i].id < next {
      assert kept[i] in kept;
    }
  }

  // ----- The decisions copied -----

  lemma MatchIsInjective(text: seq<Fact>, target: seq<Fact>, i: nat, k: nat)
    requires i < |text| && k < |text| && i != k
    requires Match(text, target, i).Some? && Match(text, target, k).Some?
    ensures Match(text, target, i) != Match(text, target, k)
  {
    hide Count, IndexOf, Keep, Gone;
    if i < k {
      KeysAreDistinct(Identities(text), i, k);
    } else {
      KeysAreDistinct(Identities(text), k, i);
    }
  }

  predicate MatchedBefore(text: seq<Fact>, target: seq<Fact>, n: nat, id: int)
    requires n <= |text|
  {
    exists i :: 0 <= i < n && MatchedTo(text, target, i, id)
  }

  predicate MatchedTo(text: seq<Fact>, target: seq<Fact>, i: nat, id: int)
    requires i < |text|
  {
    var m := Match(text, target, i);
    m.Some? && target[m.value].id == id
  }

  /** What the update of source figure `n` does to a row, wherever the row came from. */
  lemma RowUpdatedStep(row: Fact, text: seq<Fact>, target: seq<Fact>, n: nat)
    requires n < |text|
    ensures var r := RowUpdated(row, Updates(text, target, n));
      RowUpdated(row, Updates(text, target, n + 1))
      == if MatchedTo(text, target, n, row.id)
         then r.(carried := r.carried + Differing(text[n].carried, target[Match(text, target, n).value].carried))
         else r
  {
    hide Count, IndexOf, Keep, Gone, Differing;
    var before := Updates(text, target, n);
    var u := UpdateFor(text, target, n);
    if u == [] {
      assert before + u == before;
      assert forall c: Carried :: c + map[] == c;
    } else {
      assert (before + u)[..|before|] == before;
    }
  }

  /** A row no source figure matches is not touched. */
  lemma {:induction false} UnmatchedRowStays(row: Fact, text: seq<Fact>, target: seq<Fact>, n: nat)
    requires n <= |text| && !MatchedBefore(text, target, n, row.id)
    ensures RowUpdated(row, Updates(text, target, n)) == row
  {
    hide Count, IndexOf, Keep, Gone, MatchedTo, UpdateFor;
    if n > 0 {
      UnmatchedRowStays(row, text, target, n - 1);
      RowUpdatedStep(row, text, target, n - 1);
      assert !MatchedTo(text, target, n - 1, row.id);
    }
  }

  lemma MatchedOnce(text: seq<Fact>, target: seq<Fact>, i: nat, k: nat, id: int)
    requires InIdOrder(target) && i < |text| && k < |text| && i != k
    requires MatchedTo(text, target, i, id)
    ensures !MatchedTo(text, target, k, id)
  {
    hide Count, IndexOf, Keep, Gone;
    if MatchedTo(text, target, k, id) {
      MatchIsInjective(text, target, i, k);
    }
  }

  lemma MatchedRowSet(row: Fact, text: seq<Fact>, target: seq<Fact>, i: nat)
    requires InIdOrder(target) && i < |text| && MatchedTo(text, target, i, row.id)
    requires row.carried == target[Match(text, target, i).value].carried
    ensures SameCarried(text[i].carried, RowUpdated(row, Updates(text, target, i + 1)).carried)
  {
    hide Count, IndexOf, Keep, Gone;
    forall k | 0 <= k < i ensures !MatchedTo(text, target, k, row.id) {
      MatchedOnce(text, target, i, k, row.id);
    }
    UnmatchedRowStays(row, text, target, i);
    RowUpdatedStep(row, text, target, i);
    DifferingFills(text[i].carried, row.carried);
  }

  /** A matched row ends up reading as its source figure reads. */
  lemma {:induction false} MatchedRowCarries(row: Fact, text: seq<Fact>, target: seq<Fact>, n: nat, i: nat)
    requires InIdOrder(target) && i < n <= |text| && MatchedTo(text, target, i, row.id)
    requires row.carried == target[Match(text, target, i).value].carried
    ensures SameCarried(text[i].carried, RowUpdated(row, Updates(text, target, n)).carried)
  {
    hide Count, IndexOf, Keep, Gone, RowUpdated, Updates, UpdateFor, MatchedTo, SameCarried;
    if i == n - 1 {
      MatchedRowSet(row, text, target, i);
    } else {
      MatchedRowCarries(row, text, target, n - 1, i);
      RowUpdatedStep(row, text, target, n - 1);
      MatchedOnce(text, target, i, n - 1, row.id);
    }
  }

  lemma DifferingFills(s: Carried, t: Carried)
    ensures SameCarried(s, t + Differing(s, t))
    ensures Differing(s, t) == map[] ==> SameCarried(s, t)
  {
    hide Count, IndexOf, Keep, Gone;
    var d := Differing(s, t);
    assert d == map[] ==> forall c :: c !in d;
  }

  // ----- Rows the source does not know -----

  /** Where the row at `q` came from, if it was inserted. */
  lemma {:induction false} InsertOrigin(text: seq<Fact>, target: seq<Fact>, n: nat, r: nat) returns (i: nat)
    requires n <= |text| && r < |Inserts(text, target, n)|
    ensures i < n && Match(text, target, i).None? && |Inserts(text, target, i)| == r
  {
    hide Count, IndexOf, Keep, Gone;
    if r < |Inserts(text, target, n - 1)| {
      i := InsertOrigin(text, target, n - 1, r);
    } else {
      i := n - 1;
    }
  }

  /** The row at `q` of the survivors, and whether the source knows its key. */
  lemma {:induction false} SurvivorOrigin(text: seq<Fact>, target: seq<Fact>, next: int, q: nat) returns (j: nat)
    requires Storable(target, next) && q < |Survivors(text, target)|
    ensures j < |target| && target[j] == Survivors(text, target)[q]
    ensures if Unmatched(text, target, j) then Decided(target[j])
            else KeyAt(Identities(Survivors(text, target)), q) == KeyAt(Identities(target), j)
  {
    hide Count, IndexOf, Keep, Gone;
    var kept := Survivors(text, target);
    KeepMembers(target, Departed(text, target));
    assert kept[q] in kept;
    j :| 0 <= j < |target| && target[j] == kept[q];
    GoneIsRetired(text, target, next, j);
    if !Unmatched(text, target, j) {
      KeptOrdinal(text, target, next, j);
      KeepPlaces(target, Departed(text, target), j);
      SamePlace(kept, |Keep(target[..j], Departed(text, target))|, q, target, Departed(text, target));
    }
  }

  lemma SamePlace(kept: seq<Fact>, p: nat, q: nat, facts: seq<Fact>, gone: set<int>)
    requires InIdOrder(facts) && kept == Keep(facts, gone)
    requires p < |kept| && q < |kept| && kept[p] == kept[q]
    ensures p == q
  {
    hide Count, IndexOf, Keep, Gone;
    KeepInOrder(facts, gone);
  }

  /** A row whose key the source lacks is a decided one it no longer produces. */
  lemma {:induction false} StrandedRow(text: seq<Fact>, target: seq<Fact>, next: int, q: nat) returns (j: nat)
    requires Storable(target, next) && q < |Refilled(text, target, next)|
    requires !HasKey(Identities(text), KeyAt(Identities(Refilled(text, target, next)), q))
    ensures j < |target| && Unmatched(text, target, j) && Decided(target[j])
    ensures Refilled(text, target, next)[q] == UnlinkOne(target[j], Departed(text, target))
  {
    hide Count, IndexOf, Keep, Gone;
    var kept := Survivors(text, target);
    GrownToRefilled(text, target, next);
    if q >= |kept| {
      InsertedIsKnown(text, target, next, q - |kept|);
      assert false;
    } else {
      KeyAtPrefix(Identities(kept), Identities(Refilled(text, target, next)), q);
      j := SurvivorOrigin(text, target, next, q);
    }
  }

  lemma InsertedIsKnown(text: seq<Fact>, target: seq<Fact>, next: int, r: nat)
    requires Storable(target, next) && r < |Inserts(text, target, |text|)|
    ensures var ids := Identities(Refilled(text, target, next));
      HasKey(Identities(text), KeyAt(ids, |Survivors(text, target)| + r))
  {
    hide Count, IndexOf, Keep, Gone;
    var i := InsertOrigin(text, target, |text|, r);
    var p := Place(text, target, i);
    assert p == |Survivors(text, target)| + r;
    var ids := Identities(Refilled(text, target, next));
    assert KeyAt(ids, p) == KeyAt(Identities(text), i) by {
      EveryKeyIsFound(text, target, next, i);
    }
    assert HasKey(Identities(text), KeyAt(Identities(text), i)) by {
      KeyIsHeld(Identities(text), i);
    }
  }

  // ----- Keys by id are what the whole write leaves alone -----

  predicate SameRows(a: seq<Fact>, b: seq<Fact>) {
    && |a| == |b|
    && forall i :: 0 <= i < |a| ==> a[i].id == b[i].id && a[i].identity == b[i].identity
  }

  lemma {:induction false} SamePosition(a: seq<Fact>, b: seq<Fact>, id: int)
    requires SameRows(a, b)
    ensures Position(a, id) == Position(b, id)
  {
    if a != [] && a[|a| - 1].id != id {
      SamePosition(a[..|a| - 1], b[..|b| - 1], id);
    }
  }

  lemma SameKeys(a: seq<Fact>, b: seq<Fact>, id: int)
    requires SameRows(a, b)
    ensures Identities(a) == Identities(b) && KeyOfId(a, id) == KeyOfId(b, id)
  {
    hide Count, IndexOf, Keep, Gone;
    SamePosition(a, b, id);
    assert Identities(a) == Identities(b);
  }

  /** A source figure's row is found by the source figure's key. */
  lemma {:induction false} PlaceFoundByKey(text: seq<Fact>, target: seq<Fact>, next: int, i: nat)
    requires Storable(target, next) && i < |text|
    ensures var facts := Refilled(text, target, next);
      var p := Place(text, target, i);
      p < |facts| && KeyOfId(facts, facts[p].id) == Some(KeyAt(Identities(text), i))
  {
    hide Count, IndexOf, Keep, Gone;
    EveryKeyIsFound(text, target, next, i);
    RefilledInOrder(text, target, next);
    PositionOf(Refilled(text, target, next), Place(text, target, i));
  }

  /** Every matched figure keeps its key: the row with that id is found by the same key. */
  lemma {:induction false} MatchedKeepsKey(text: seq<Fact>, target: seq<Fact>, next: int, i: nat)
    requires Storable(target, next) && i < |text| && Match(text, target, i).Some?
    ensures KeyOfId(Refilled(text, target, next), target[Match(text, target, i).value].id)
         == Some(KeyAt(Identities(text), i))
  {
    hide Count, IndexOf, Keep, Gone;
    PlaceFoundByKey(text, target, next, i);
    PlaceOfMatched(text, target, next, i);
  }

  /** An id that is neither a survivor nor newly taken names no figure of the report. */
  lemma {:induction false} ForeignStaysForeign(text: seq<Fact>, target: seq<Fact>, next: int, id: int)
    requires Storable(target, next) && id < next && KeyOfId(target, id) == None
    ensures KeyOfId(Refilled(text, target, next), id) == None
  {
    hide Count, IndexOf, Keep, Gone;
    var facts := Refilled(text, target, next);
    var kept := Survivors(text, target);
    KeepMembers(target, Departed(text, target));
    forall q | 0 <= q < |facts| ensures facts[q].id != id {
      if q < |kept| {
        assert kept[q] in target;
      }
    }
    var p := Position(facts, id);
  }
}
