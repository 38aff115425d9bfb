/** What a written report still is: rows a database can hold, whatever other reports do. */
module RefreshStorable {
  import opened Wrappers
  import opened Figures
  import opened RefreshPlan
  import opened RefreshApply
  import opened RefreshPlaces
  import opened RefreshRows
  import opened RefreshLinks
  import opened RefreshHolds

  /** An id of a written row is one it had, or one the insert took. */
  lemma {:induction false} WrittenIds(text: seq<Fact>, target: seq<Fact>, next: int, q: nat)
    requires Storable(target, next) && q < |Written(text, target, next)|
    ensures var id := Written(text, target, next)[q].id;
      if q < |Survivors(text, target)| then exists f :: f in target && f.id == id
      else next <= id < next + |Inserts(text, target, |text|)|
  {
    hide Count, IndexOf, Keep, Gone;
    WrittenKeepsRows(text, target, next);
    BaseKeepsRows(text, target, next);
    KeepMembers(target, Departed(text, target));
    if q < |Survivors(text, target)| {
      assert Survivors(text, target)[q] in target;
    }
  }

  lemma {:induction false} WrittenStatus(text: seq<Fact>, target: seq<Fact>, next: int, q: nat)
    requires Storable(target, next) && q < |Written(text, target, next)|
    requires forall i :: 0 <= i < |text| ==> StatusKnown(text[i])
    ensures StatusKnown(Written(text, target, next)[q])
  {
    hide Count, IndexOf, Keep, Gone;
    var rows := Written(text, target, next);
    if Unmatched(text, rows, q) {
      WrittenStranded(text, target, next, q);
    } else {
      var key := KeyAt(Identities(rows), q);
      var i := IndexOf(Identities(text), key);
      KeyIsHeld(Identities(rows), q);
      WrittenMatch(text, target, next, i);
      WrittenCarries(text, target, next);
      assert Carries(text, rows, i);
    }
  }

  lemma {:induction false} RowLinkedBound(row: Fact, base: seq<Fact>, links: seq<Link>, bound: int)
    requires row.sameFigureAs.Some? ==> row.sameFigureAs.value < bound
    requires forall i :: 0 <= i < |base| ==> base[i].id < bound
    ensures var r := RowLinked(row, base, links); r.sameFigureAs.Some? ==> r.sameFigureAs.value < bound
  {
    hide Count, IndexOf, Keep, Gone;
    if links != [] {
      RowLinkedBound(row, base, links[..|links| - 1], bound);
    }
  }

  lemma {:induction false} WrittenLinkBound(text: seq<Fact>, target: seq<Fact>, next: int, q: nat)
    requires Storable(target, next) && q < |Written(text, target, next)|
    ensures var r := Written(text, target, next)[q];
      r.sameFigureAs.Some? ==> r.sameFigureAs.value < next + |Inserts(text, target, |text|)|
  {
    hide Count, IndexOf, Keep, Gone;
    var base := Base(text, target, next);
    var bound := next + |Inserts(text, target, |text|)|;
    forall i | 0 <= i < |base| ensures base[i].id < bound {
      WrittenKeepsRows(text, target, next);
      WrittenIds(text, target, next, i);
    }
    if q < |Survivors(text, target)| {
      KeepMembers(target, Departed(text, target));
      assert Survivors(text, target)[q] in target;
    }
    RowLinkedBound(base[q], base, Links(text, target, |text|), bound);
  }

  lemma {:induction false} WrittenStorable(text: seq<Fact>, target: seq<Fact>, next: int)
    requires Storable(target, next)
    requires forall i :: 0 <= i < |text| ==> StatusKnown(text[i])
    ensures Storable(Written(text, target, next), next + |Inserts(text, target, |text|)|)
  {
    hide Count, IndexOf, Keep, Gone, Written, Survivors;
    var rows := Written(text, target, next);
    RefilledInOrder(text, target, next);
    BaseKeepsRows(text, target, next);
    WrittenKeepsRows(text, target, next);
    forall q | 0 <= q < |rows|
      ensures rows[q].id < next + |Inserts(text, target, |text|)| && StatusKnown(rows[q])
      ensures rows[q].sameFigureAs.Some? ==> rows[q].sameFigureAs.value < next + |Inserts(text, target, |text|)|
    {
      WrittenIds(text, target, next, q);
      WrittenStatus(text, target, next, q);
      WrittenLinkBound(text, target, next, q);
    }
  }

  // ----- Deletions in other reports -----

  /** Ids that belong to some other report. */
  predicate Foreign(facts: seq<Fact>, gone: set<int>) {
    forall i :: 0 <= i < |facts| ==> facts[i].id !in gone
  }

  lemma UnlinkKeepsRows(facts: seq<Fact>, gone: set<int>)
    ensures SameRows(Unlink(facts, gone), facts) && Identities(Unlink(facts, gone)) == Identities(facts)
  {
    hide Count, IndexOf, Keep, Gone;
    assert Identities(Unlink(facts, gone)) == Identities(facts);
  }

  lemma {:induction false} UnlinkKeepsLink(facts: seq<Fact>, gone: set<int>, j: nat)
    requires j < |facts| && Foreign(facts, gone)
    ensures LinkOf(Unlink(facts, gone)[j], Unlink(facts, gone)) == LinkOf(facts[j], facts)
  {
    hide Count, IndexOf, Keep, Gone;
    UnlinkKeepsRows(facts, gone);
    if facts[j].sameFigureAs.Some? {
      SameKeys(Unlink(facts, gone), facts, facts[j].sameFigureAs.value);
    }
  }

  lemma {:induction false} UnlinkKeepsRowPlan(text: seq<Fact>, facts: seq<Fact>, gone: set<int>, n: nat)
    requires n <= |text| && Foreign(facts, gone)
    ensures Inserts(text, Unlink(facts, gone), n) == Inserts(text, facts, n)
    ensures Updates(text, Unlink(facts, gone), n) == Updates(text, facts, n)
    ensures Links(text, Unlink(facts, gone), n) == Links(text, facts, n)
  {
    hide Count, IndexOf, Keep, Gone, InsertFor, UpdateFor, LinkFor, Unlink;
    if n > 0 {
      UnlinkKeepsRowPlan(text, facts, gone, n - 1);
      UnlinkKeepsRowStep(text, facts, gone, n - 1);
    }
  }

  lemma UnlinkKeepsRowStep(text: seq<Fact>, facts: seq<Fact>, gone: set<int>, i: nat)
    requires i < |text| && Foreign(facts, gone)
    ensures InsertFor(text, Unlink(facts, gone), i) == InsertFor(text, facts, i)
    ensures UpdateFor(text, Unlink(facts, gone), i) == UpdateFor(text, facts, i)
    ensures LinkFor(text, Unlink(facts, gone), i) == LinkFor(text, facts, i)
  {
    hide Count, IndexOf, Keep, Gone;
    UnlinkKeepsRows(facts, gone);
    var m := Match(text, facts, i);
    if m.Some? {
      UnlinkKeepsLink(facts, gone, m.value);
    }
  }

  lemma {:induction false} UnlinkKeepsRetirePlan(text: seq<Fact>, facts: seq<Fact>, gone: set<int>, n: nat)
    requires n <= |facts|
    ensures Retires(text, Unlink(facts, gone), n) == Retires(text, facts, n)
    ensures Stranded(text, Unlink(facts, gone), n) == Stranded(text, facts, n)
  {
    hide Count, IndexOf, Keep, Gone;
    UnlinkKeepsRows(facts, gone);
    if n > 0 {
      UnlinkKeepsRetirePlan(text, facts, gone, n - 1);
    }
  }

  lemma {:induction false} UnlinkKeepsMissing(text: seq<Fact>, side: FactSide, gone: set<int>, history: seq<History>)
    ensures Missing(text, side.(facts := Unlink(side.facts, gone)), history) == Missing(text, side, history)
  {
    hide Count, IndexOf, Keep, Gone;
    if history != [] {
      UnlinkKeepsMissing(text, side, gone, history[..|history| - 1]);
      UnlinkKeepsHeld(side, gone);
    }
  }

  lemma UnlinkKeepsHeld(side: FactSide, gone: set<int>)
    ensures forall key, d :: HoldsDecision(side.(facts := Unlink(side.facts, gone)), key, d) == HoldsDecision(side, key, d)
  {
    hide Count, IndexOf, Keep, Gone;
    UnlinkKeepsRows(side.facts, gone);
    forall h | h in side.history ensures KeyOfId(Unlink(side.facts, gone), h.factId) == KeyOfId(side.facts, h.factId) {
      SameKeys(Unlink(side.facts, gone), side.facts, h.factId);
    }
  }

  /** Retiring another report's figures changes nothing a report's plan reads. */
  lemma {:induction false} PlanIgnoresForeign(source: FactSide, side: FactSide, gone: set<int>)
    requires Foreign(side.facts, gone)
    ensures PlanOf(source, side.(facts := Unlink(side.facts, gone))) == PlanOf(source, side)
  {
    hide Count, IndexOf, Keep, Gone;
    var text := TextFacts(source.facts);
    UnlinkKeepsRowPlan(text, side.facts, gone, |text|);
    UnlinkKeepsRetirePlan(text, side.facts, gone, |side.facts|);
    UnlinkKeepsMissing(text, side, gone, source.history);
  }
}
