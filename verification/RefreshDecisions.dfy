/**
 * What becomes of a decision of the target.
 *
 * A decided figure is never deleted, and what was superseded under it stays. Its decision is
 * its own only where the source has no figure under its key: a matched figure takes the
 * source's columns, the decision among them, and nothing keeps the one it had.
 */
module RefreshDecisions {
  import opened Wrappers
  import opened Figures
  import opened RefreshPlan
  import opened RefreshApply
  import opened RefreshPlaces
  import opened RefreshRows
  import opened RefreshLinks
  import opened RefreshHolds

  predicate IsDecisionColumn(c: Column) {
    c.VerificationStatus? || c.VerifiedBy? || c.VerifiedAt? || c.CorrectedValue? || c.ReviewerNote?
  }

  /** The same status, reviewer, time, correction and note. */
  predicate SameDecision(a: Carried, b: Carried) {
    forall c: Column :: IsDecisionColumn(c) ==> Cell(a, c) == Cell(b, c)
  }

  /** The source figure under the key of the target figure at `j`. */
  function Counterpart(text: seq<Fact>, target: seq<Fact>, j: nat): (s: Fact)
    requires j < |target| && !Unmatched(text, target, j)
    ensures s in text
  {
    text[IndexOf(Identities(text), KeyAt(Identities(target), j))]
  }

  /** The row a target figure becomes: its own columns where unmatched, else the source's. */
  predicate Becomes(text: seq<Fact>, target: seq<Fact>, j: nat, g: Fact)
    requires j < |target|
  {
    && g.id == target[j].id && g.identity == target[j].identity
    && if Unmatched(text, target, j) then g.carried == target[j].carried
       else SameCarried(Counterpart(text, target, j).carried, g.carried)
  }

  ghost predicate KeepsItsHistory(before: FactSide, after: FactSide, id: int) {
    forall h :: h in before.history && h.factId == id ==> h in after.history
  }

  /** Every decided figure is still there, with its history, and has become what it should. */
  ghost predicate DecisionsFollow(source: FactSide, before: FactSide, after: FactSide) {
    forall j :: 0 <= j < |before.facts| && Decided(before.facts[j]) ==>
      && KeepsItsHistory(before, after, before.facts[j].id)
      && exists g :: g in after.facts && Becomes(TextFacts(source.facts), before.facts, j, g)
  }

  lemma {:induction false} RowBecomes(text: seq<Fact>, target: seq<Fact>, next: int, j: nat, row: Fact)
    requires Storable(target, next) && j < |target|
    requires row.id == target[j].id && row.identity == target[j].identity && row.carried == target[j].carried
    ensures Becomes(text, target, j, RowUpdated(row, Updates(text, target, |text|)))
  {
    hide Count, IndexOf, SameCarried;
    if Unmatched(text, target, j) {
      StrandedRowStays(row, text, target, j);
    } else {
      var i := IndexOf(Identities(text), KeyAt(Identities(target), j));
      KeyIsHeld(Identities(target), j);
      assert Match(text, target, i) == Some(j);
      MatchedRowCarries(row, text, target, |text|, i);
    }
  }

  lemma {:induction false} FigureStays(source: FactSide, target: FactSide, next: int, j: nat)
    requires Storable(target.facts, next) && j < |target.facts| && Decided(target.facts[j])
    ensures var after := Applied(target, PlanOf(source, target), next);
      && after.Some?
      && KeepsItsHistory(target, after.value, target.facts[j].id)
      && exists g :: g in after.value.facts && Becomes(TextFacts(source.facts), target.facts, j, g)
  {
    hide Count, IndexOf, Keep, Gone, Inserts, Becomes, Updates;
    var text := TextFacts(source.facts);
    ApplyWrites(source, target, next);
    var after := Applied(target, PlanOf(source, target), next).value;
    var gone := Departed(text, target.facts);
    GoneIsRetired(text, target.facts, next, j);
    KeepHistoryMembers(target.history, gone);
    KeepPlaces(target.facts, gone, j);
    var p := |Keep(target.facts[..j], gone)|;
    var row := Refilled(text, target.facts, next)[p];
    assert row == UnlinkOne(target.facts[j], gone);
    RowBecomes(text, target.facts, next, j, row);
    var base := Base(text, target.facts, next)[p];
    assert base == RowUpdated(row, Updates(text, target.facts, |text|));
    assert after.facts[p] == base.(sameFigureAs := after.facts[p].sameFigureAs);
    BecomesIgnoresLinks(text, target.facts, j, base, after.facts[p]);
    assert after.facts[p] in after.facts;
  }

  lemma BecomesIgnoresLinks(text: seq<Fact>, target: seq<Fact>, j: nat, g: Fact, h: Fact)
    requires j < |target| && Becomes(text, target, j, g) && h == g.(sameFigureAs := h.sameFigureAs)
    ensures Becomes(text, target, j, h)
  {
  }

  /** Writing a plan: every decided figure of the target stays and becomes what it should. */
  lemma {:induction false} DecidedFiguresStay(source: FactSide, target: FactSide, next: int)
    requires Storable(target.facts, next)
    ensures var after := Applied(target, PlanOf(source, target), next);
      after.Some? && DecisionsFollow(source, target, after.value)
  {
    hide Count, IndexOf, Keep, PlanOf, Applied, Becomes, KeepsItsHistory;
    ApplyWrites(source, target, next);
    var after := Applied(target, PlanOf(source, target), next).value;
    forall j | 0 <= j < |target.facts| && Decided(target.facts[j])
      ensures KeepsItsHistory(target, after, target.facts[j].id)
      ensures exists g :: g in after.facts && Becomes(TextFacts(source.facts), target.facts, j, g)
    {
      FigureStays(source, target, next, j);
    }
  }

  /**
   * A decision of the target survives exactly where the source has no figure under its key, or
   * has one with the same decision already.
   */
  lemma {:induction false} DecisionSurvivesExactly(source: FactSide, before: FactSide, after: FactSide, j: nat, g: Fact)
    requires DecisionsFollow(source, before, after) && DistinctIds(after.facts)
    requires j < |before.facts| && Decided(before.facts[j])
    requires g in after.facts && g.id == before.facts[j].id
    ensures var text := TextFacts(source.facts);
      SameDecision(before.facts[j].carried, g.carried) <==>
        || Unmatched(text, before.facts, j)
        || SameDecision(before.facts[j].carried, Counterpart(text, before.facts, j).carried)
  {
    hide Count, IndexOf, KeepsItsHistory, TextFacts, Counterpart, Unmatched, IsDecisionColumn;
    var text := TextFacts(source.facts);
    var h :| h in after.facts && Becomes(text, before.facts, j, h);
    assert h == g;
    if !Unmatched(text, before.facts, j) {
      DecisionIsCarried(Counterpart(text, before.facts, j).carried, g.carried, before.facts[j].carried);
    }
  }

  lemma DecisionIsCarried(a: Carried, b: Carried, c: Carried)
    requires SameCarried(a, b)
    ensures SameDecision(c, b) <==> SameDecision(c, a)
  {
    hide IsDecisionColumn, Cell;
  }

  /**
   * One verified figure, and a source in which it is still unverified: the refresh takes the
   * decision away, and no history row keeps it.
   */
  lemma {:induction false} VerifiedFigureIsUndone(f: Fact, s: Fact, next: int)
    requires Cell(f.carried, VerificationStatus) == Some("verified") && f.id < next && f.sameFigureAs.None?
    requires Unverified(s) && s.identity == f.identity && !FromScan(s)
    ensures var source, target := FactSide([s], []), FactSide([f], []);
      var after := Applied(target, PlanOf(source, target), next);
      && after.Some? && after.value.history == []
      && exists g :: g in after.value.facts && g.id == f.id && Unverified(g)
  {
    var source, target := FactSide([s], []), FactSide([f], []);
    OneTextFact(s);
    OneStorable(f, next);
    DecidedFiguresStay(source, target, next);
    SameIdentitySameKey(s, f);
    NoHistory(source, target, next);
    hide PlanOf, Applied, IndexOf, Count, TextFacts, Unmatched;
    var after := Applied(target, PlanOf(source, target), next).value;
    assert Decided(target.facts[0]);
    var g :| g in after.facts && Becomes([s], [f], 0, g);
    assert Counterpart([s], [f], 0) == s;
    assert Cell(g.carried, VerificationStatus) == Cell(s.carried, VerificationStatus);
  }

  lemma OneTextFact(s: Fact)
    requires !FromScan(s)
    ensures TextFacts([s]) == [s]
  {
    assert [s][..0] == [];
  }

  lemma OneStorable(f: Fact, next: int)
    requires Decided(f) && f.id < next && f.sameFigureAs.None?
    ensures Storable([f], next)
  {
  }

  lemma NoHistory(source: FactSide, target: FactSide, next: int)
    requires Storable(target.facts, next) && source.history == [] && target.history == []
    ensures var after := Applied(target, PlanOf(source, target), next);
      after.Some? && after.value.history == []
  {
    hide Count, IndexOf, Keep, Gone, Inserts, PlanOf, Applied, Written, Base;
    ApplyWrites(source, target, next);
    assert Missing(TextFacts(source.facts), target, []) == [];
  }

  lemma SameIdentitySameKey(s: Fact, f: Fact)
    requires s.identity == f.identity
    ensures !Unmatched([s], [f], 0)
  {
    KeyIsHeld(Identities([s]), 0);
    assert Identities([s])[..0] == [] && Identities([f])[..0] == [];
  }

  /** A report that agrees with its source already needs nothing and loses nothing. */
  lemma {:induction false} AgreeingFollows(source: FactSide, target: FactSide)
    requires Agrees(source, target)
    ensures DecisionsFollow(source, target, target)
  {
    hide Count, IndexOf, SameCarried, TextFacts;
    var text := TextFacts(source.facts);
    forall j | 0 <= j < |target.facts| && Decided(target.facts[j])
      ensures exists g :: g in target.facts && Becomes(text, target.facts, j, g)
    {
      if !Unmatched(text, target.facts, j) {
        var i := IndexOf(Identities(text), KeyAt(Identities(target.facts), j));
        KeyIsHeld(Identities(target.facts), j);
        assert Match(text, target.facts, i) == Some(j);
        assert Carries(text, target.facts, i);
      }
      assert target.facts[j] in target.facts && Becomes(text, target.facts, j, target.facts[j]);
    }
  }

  /** Rows that differ in their links alone become the same. */
  ghost predicate OnlyLinksDiffer(a: FactSide, b: FactSide) {
    && a.history == b.history && |a.facts| == |b.facts|
    && forall i :: 0 <= i < |a.facts| ==> b.facts[i] == a.facts[i].(sameFigureAs := b.facts[i].sameFigureAs)
  }

  lemma {:induction false} FollowsFromSameRows(source: FactSide, a: FactSide, b: FactSide, after: FactSide)
    requires OnlyLinksDiffer(a, b) && DecisionsFollow(source, b, after)
    ensures DecisionsFollow(source, a, after)
  {
    hide Count, IndexOf, SameCarried, TextFacts;
    var text := TextFacts(source.facts);
    assert Identities(a.facts) == Identities(b.facts);
    forall j | 0 <= j < |a.facts| && Decided(a.facts[j])
      ensures KeepsItsHistory(a, after, a.facts[j].id)
      ensures exists g :: g in after.facts && Becomes(text, a.facts, j, g)
    {
      assert KeepsItsHistory(b, after, b.facts[j].id);
      var g :| g in after.facts && Becomes(text, b.facts, j, g);
      assert Becomes(text, a.facts, j, g);
    }
  }

  lemma {:induction false} FollowsToSameRows(source: FactSide, before: FactSide, a: FactSide, b: FactSide)
    requires DecisionsFollow(source, before, a) && OnlyLinksDiffer(a, b)
    ensures DecisionsFollow(source, before, b)
  {
    hide Count, IndexOf, TextFacts, Becomes;
    var text := TextFacts(source.facts);
    forall j | 0 <= j < |before.facts| && Decided(before.facts[j])
      ensures KeepsItsHistory(before, b, before.facts[j].id)
      ensures exists g :: g in b.facts && Becomes(text, before.facts, j, g)
    {
      var g :| g in a.facts && Becomes(text, before.facts, j, g);
      var i :| 0 <= i < |a.facts| && a.facts[i] == g;
      BecomesIgnoresLinks(text, before.facts, j, g, b.facts[i]);
      assert b.facts[i] in b.facts;
    }
  }
}
