/**
 * When a refresh goes through, said of what it was given: the two readings of the source and the
 * target before the run.
 */
module RefreshReadings {
  import opened Wrappers
  import opened Figures
  import opened RefreshPlan
  import opened RefreshApply
  import opened RefreshPlaces
  import opened RefreshRows
  import opened RefreshLinks
  import opened RefreshHolds
  import opened RefreshDecisions
  import opened RefreshStorable
  import opened RefreshRun

  // ----- What a written report holds, by the reading it was written from -----

  /** A reading without the figures read from a scan. */
  function TextSide(source: FactSide): FactSide {
    source.(facts := TextFacts(source.facts))
  }

  /** History rows belong to figures the database has already numbered. */
  predicate HistoryStored(side: FactSide, next: int) {
    forall h :: h in side.history ==> h.factId < next
  }

  /** Under a key the source has, the report holds the decisions it held and the source's. */
  ghost predicate HistoriesFollow(source: FactSide, before: FactSide, after: FactSide) {
    forall key, d :: HasKey(Identities(TextFacts(source.facts)), key) ==>
      (HoldsDecision(after, key, d) <==> HoldsDecision(before, key, d) || HoldsDecision(TextSide(source), key, d))
  }

  /** A decided figure of the report states this. */
  predicate HasDecided(facts: seq<Fact>, who: Identity) {
    exists j :: 0 <= j < |facts| && Decided(facts[j]) && facts[j].identity == who
  }

  /** Every figure the source lacks is one the report held decided. */
  ghost predicate StrandedFollow(source: FactSide, before: FactSide, after: FactSide) {
    forall q :: 0 <= q < |after.facts| && Unmatched(TextFacts(source.facts), after.facts, q) ==>
      HasDecided(before.facts, after.facts[q].identity)
  }

  lemma {:induction false} MissingIsTheSources(text: seq<Fact>, target: FactSide, history: seq<History>, row: KeyedHistory)
    requires row in Missing(text, target, history)
    ensures row.row in history && KeyOfId(text, row.row.factId) == Some(row.figure)
  {
    hide Count, IndexOf, KeyOfId, HoldsDecision;
    var front, last := history[..|history| - 1], history[|history| - 1];
    assert history == front + [last];
    if row in Missing(text, target, front) {
      MissingIsTheSources(text, target, front, row);
    }
  }

  /** The row a source key finds in the written report is at the figure's place. */
  lemma {:induction false} FoundAtPlace(text: seq<Fact>, target: seq<Fact>, next: int, key: Key, id: int) returns (i: nat)
    requires Storable(target, next) && HasKey(Identities(text), key)
    requires KeyOfId(Written(text, target, next), id) == Some(key)
    ensures i < |text| && KeyAt(Identities(text), i) == key
    ensures Place(text, target, i) < |Refilled(text, target, next)| && Refilled(text, target, next)[Place(text, target, i)].id == id
  {
    hide Count, IndexOf, Keep, Gone, Inserts, Refilled, Place, Written, Base;
    WrittenKeepsKeys(text, target, next, id);
    BaseKeepsKeys(text, target, next, id);
    i := IndexOf(Identities(text), key);
    EveryKeyIsFound(text, target, next, i);
    var facts := Refilled(text, target, next);
    var q := Position(facts, id).value;
    KeyIsHeld(Identities(facts), q);
  }

  /** A decision the write kept was held under the same key before. */
  lemma {:induction false} KeptWasHeld(text: seq<Fact>, target: FactSide, next: int, key: Key, h: History)
    requires Storable(target.facts, next) && HasKey(Identities(text), key)
    requires h in target.history && h.factId < next
    requires KeyOfId(Written(text, target.facts, next), h.factId) == Some(key)
    ensures HoldsDecision(target, key, h.decision)
  {
    hide Count, IndexOf, Keep, Gone, Inserts, Refilled, Place, Written, Base, HasKey;
    var i := FoundAtPlace(text, target.facts, next, key, h.factId);
    var row := RowAtPlace(text, target.facts, next, i);
    var j := Match(text, target.facts, i).value;
    PositionOf(target.facts, j);
    assert KeyOfId(target.facts, h.factId) == Some(key);
  }

  /** A decision the write added is the source's, under the same key. */
  lemma {:induction false} AddedIsTheSources(source: FactSide, target: FactSide, next: int, key: Key, k: nat)
    requires Storable(target.facts, next)
    requires var text := TextFacts(source.facts);
      var missing := Missing(text, target, source.history);
      && k < |missing| && KnowsHistory(Base(text, target.facts, next), missing)
      && KeyOfId(Written(text, target.facts, next), NewHistory(Base(text, target.facts, next), missing)[k].factId) == Some(key)
    ensures HoldsDecision(TextSide(source), key, Missing(TextFacts(source.facts), target, source.history)[k].row.decision)
  {
    hide Count, IndexOf, Keep, Gone, Inserts, Refilled, Written, Base, TextFacts, HasKey, Missing;
    var text := TextFacts(source.facts);
    var row := Missing(text, target, source.history)[k];
    MissingIsTheSources(text, target, source.history, row);
    var base := Base(text, target.facts, next);
    assert row in Missing(text, target, source.history);
    var id := IdFor(base, row.figure).value;
    WrittenKeepsKeys(text, target.facts, next, id);
    RefilledInOrder(text, target.facts, next);
    BaseKeepsRows(text, target.facts, next);
    PositionOf(base, IndexOf(Identities(base), row.figure));
  }

  lemma {:induction false} WrittenHistories(source: FactSide, target: FactSide, next: int)
    requires Storable(target.facts, next) && HistoryStored(target, next)
    ensures var after := Applied(target, PlanOf(source, target), next);
      after.Some? && HistoriesFollow(source, target, after.value)
  {
    hide Count, IndexOf, Keep, Gone, Inserts, Written, Base, TextFacts, PlanOf, Applied, KeyOfId, Missing;
    ApplyWrites(source, target, next);
    var text := TextFacts(source.facts);
    var after := Applied(target, PlanOf(source, target), next).value;
    KeepHistoryMembers(target.history, Departed(text, target.facts));
    forall key, d | HasKey(Identities(text), key)
      ensures HoldsDecision(after, key, d) <==> HoldsDecision(target, key, d) || HoldsDecision(TextSide(source), key, d)
    {
      DecisionFollows(source, target, next, key, d);
    }
  }

  lemma {:induction false} DecisionFollows(source: FactSide, target: FactSide, next: int, key: Key, d: Decision)
    requires Storable(target.facts, next) && HistoryStored(target, next)
    requires HasKey(Identities(TextFacts(source.facts)), key)
    ensures Applied(target, PlanOf(source, target), next).Some?
    ensures var after := Applied(target, PlanOf(source, target), next).value;
      HoldsDecision(after, key, d) <==> HoldsDecision(target, key, d) || HoldsDecision(TextSide(source), key, d)
  {
    hide Count, IndexOf, Keep, Gone, Inserts, Written, Base, TextFacts, PlanOf, Applied, KeyOfId, Missing, Departed, HasKey;
    ApplyWrites(source, target, next);
    var text := TextFacts(source.facts);
    var missing := Missing(text, target, source.history);
    var after := Applied(target, PlanOf(source, target), next).value;
    var kept := KeepHistory(target.history, Departed(text, target.facts));
    KeepHistoryMembers(target.history, Departed(text, target.facts));
    if HoldsDecision(after, key, d) {
      var h :| h in after.history && h.decision == d && KeyOfId(after.facts, h.factId) == Some(key);
      if h in kept {
        KeptWasHeld(text, target, next, key, h);
      } else {
        var k :| 0 <= k < |missing| && NewHistory(Base(text, target.facts, next), missing)[k] == h;
        AddedIsTheSources(source, target, next, key, k);
      }
    }
    if HoldsDecision(target, key, d) {
      assert KeyAt(Identities(text), IndexOf(Identities(text), key)) == key;
      HeldStaysHeld(text, target, next, missing, key, d);
    }
    if HoldsDecision(TextSide(source), key, d) {
      var h :| h in source.history && h.decision == d && KeyOfId(text, h.factId) == Some(key);
      HistoryHolds(source, target, next, h);
    }
  }

  lemma {:induction false} WrittenStrandedFollow(source: FactSide, target: FactSide, next: int)
    requires Storable(target.facts, next)
    ensures var after := Applied(target, PlanOf(source, target), next);
      after.Some? && StrandedFollow(source, target, after.value)
  {
    hide Count, IndexOf, Keep, Gone, Inserts, Written, Base, TextFacts, PlanOf, Applied, Missing, Refilled;
    ApplyWrites(source, target, next);
    var text := TextFacts(source.facts);
    var after := Applied(target, PlanOf(source, target), next).value;
    WrittenKeepsRows(text, target.facts, next);
    forall q | 0 <= q < |after.facts| && Unmatched(text, after.facts, q)
      ensures HasDecided(target.facts, after.facts[q].identity)
    {
      var j := StrandedRow(text, target.facts, next, q);
      assert Refilled(text, target.facts, next)[q].identity == target.facts[j].identity;
      assert Identities(after.facts)[q] == Identities(Refilled(text, target.facts, next))[q];
    }
  }

  // ----- What the second reading must be -----

  /**
   * The second reading agrees with the first, as a report would: the same figures under the same
   * keys, reading and pointing the same, with none gone but decided ones. A decision superseded
   * in the second is one the first had too, or one the target held already.
   */
  ghost predicate ReadsAgain(first: FactSide, second: FactSide, before: FactSide) {
    var a, b := TextFacts(first.facts), TextFacts(second.facts);
    && CarriesUpTo(b, a, |b|)
    && (forall i :: 0 <= i < |a| ==> !Unmatched(b, a, i) || Decided(a[i]))
    && (forall h :: h in second.history && KeyOfId(b, h.factId).Some? ==>
          var key := KeyOfId(b, h.factId).value;
          HoldsDecision(before, key, h.decision) || HoldsDecision(TextSide(first), key, h.decision))
  }

  /** A source that stands still reads again as it did. */
  lemma {:induction false} StandingStillReadsAgain(source: FactSide, before: FactSide)
    ensures ReadsAgain(source, source, before) && NewOnesAreFree(source, source, before)
  {
    hide Count, IndexOf, TextFacts, HasKey, KeyAt, Decided;
    var a := TextFacts(source.facts);
    forall i | 0 <= i < |a| ensures HasKey(Identities(a), KeyAt(Identities(a), i)) && Carries(a, a, i) {
      KeyIsHeld(Identities(a), i);
    }
  }

  /** A figure new in the second reading states nothing that a decided figure of the target states. */
  predicate NewOnesAreFree(first: FactSide, second: FactSide, before: FactSide) {
    var a, b := TextFacts(first.facts), TextFacts(second.facts);
    forall k :: 0 <= k < |b| ==>
      HasKey(Identities(a), KeyAt(Identities(b), k)) || !HasDecided(before.facts, b[k].identity)
  }

  /** What a report holds once written from a reading, whatever was written around it. */
  ghost predicate Follows(first: FactSide, before: FactSide, after: FactSide) {
    Agrees(first, after) && HistoriesFollow(first, before, after) && StrandedFollow(first, before, after)
  }

  /** Three lists of figures, and one key: what the first and the last hold under it is the middle's. */
  lemma {:induction false} CarriesThrough(a: seq<Fact>, b: seq<Fact>, w: seq<Fact>, k: nat)
    requires k < |b| && HasKey(Identities(a), KeyAt(Identities(b), k))
    requires CarriesUpTo(a, w, |a|)
    ensures Carries(b, a, k) <==> Carries(b, w, k)
  {
    hide Count, SameCarried, LinkOf, KeyAt, HasKey;
    var i := IndexOf(Identities(a), KeyAt(Identities(b), k));
    assert Carries(a, w, i);
    var q := Match(a, w, i).value;
    assert Match(b, a, k) == Some(i) && Match(b, w, k) == Some(q);
    SameBothWays(a[i].carried, w[q].carried, b[k].carried);
  }

  lemma SameBothWays(a: Carried, w: Carried, b: Carried)
    requires SameCarried(a, w)
    ensures SameCarried(b, a) <==> SameCarried(b, w)
  {
    hide Cell;
  }

  lemma {:induction false} NewIsNotCarried(first: FactSide, second: FactSide, before: FactSide, after: FactSide, k: nat)
    requires StrandedFollow(first, before, after) && NewOnesAreFree(first, second, before)
    requires k < |TextFacts(second.facts)| && Carries(TextFacts(second.facts), after.facts, k)
    ensures HasKey(Identities(TextFacts(first.facts)), KeyAt(Identities(TextFacts(second.facts)), k))
  {
    hide Count, IndexOf, SameCarried, LinkOf, HasKey, HasDecided;
    var b := TextFacts(second.facts);
    var q := Match(b, after.facts, k).value;
    var row := after.facts[q];
    assert row.identity == b[k].identity;
    assert Unmatched(TextFacts(first.facts), after.facts, q) ==> HasDecided(before.facts, row.identity);
  }

  lemma SameCarriedDecided(f: Fact, g: Fact)
    requires SameCarried(f.carried, g.carried)
    ensures Decided(f) <==> Decided(g)
  {
  }

  /** The rows the second reading lacks are decided in the first exactly when they are in the report. */
  lemma {:induction false} LackedAreDecided(first: FactSide, second: FactSide, after: FactSide)
    requires Agrees(first, after)
    ensures var a, b, w := TextFacts(first.facts), TextFacts(second.facts), after.facts;
      (forall i :: 0 <= i < |a| ==> !Unmatched(b, a, i) || Decided(a[i])) <==>
      (forall q :: 0 <= q < |w| ==> !Unmatched(b, w, q) || Decided(w[q]))
  {
    hide Count, SameCarried, LinkOf, KeyAt, HasKey, Decided, TextFacts;
    var a, b, w := TextFacts(first.facts), TextFacts(second.facts), after.facts;
    if forall q :: 0 <= q < |w| ==> !Unmatched(b, w, q) || Decided(w[q]) {
      forall i | 0 <= i < |a| ensures !Unmatched(b, a, i) || Decided(a[i]) {
        assert Carries(a, w, i);
        SameCarriedDecided(a[i], w[Match(a, w, i).value]);
      }
    }
    if forall i :: 0 <= i < |a| ==> !Unmatched(b, a, i) || Decided(a[i]) {
      forall q | 0 <= q < |w| && !Unmatched(a, w, q) ensures !Unmatched(b, w, q) || Decided(w[q]) {
        var i := IndexOf(Identities(a), KeyAt(Identities(w), q));
        assert Carries(a, w, i);
        KeyIsHeld(Identities(w), q);
        SameCarriedDecided(a[i], w[q]);
      }
    }
  }

  /** Under a key both readings have, the report holds what the target held or the first reading had. */
  lemma {:induction false} HistoryIsHeldAlike(first: FactSide, second: FactSide, before: FactSide, after: FactSide, h: History)
    requires HistoriesFollow(first, before, after)
    requires var a, b := TextFacts(first.facts), TextFacts(second.facts);
      && (forall k :: 0 <= k < |b| ==> HasKey(Identities(a), KeyAt(Identities(b), k)))
      && KeyOfId(b, h.factId).Some?
    ensures var key := KeyOfId(TextFacts(second.facts), h.factId).value;
      HoldsDecision(after, key, h.decision)
      <==> HoldsDecision(before, key, h.decision) || HoldsDecision(TextSide(first), key, h.decision)
  {
    hide Count, IndexOf, HasKey, KeyAt, HoldsDecision;
    var k := Position(TextFacts(second.facts), h.factId).value;
    assert HasKey(Identities(TextFacts(first.facts)), KeyAt(Identities(TextFacts(second.facts)), k));
  }

  lemma CarriedHasKey(b: seq<Fact>, a: seq<Fact>, k: nat)
    requires k < |b| && Carries(b, a, k)
    ensures HasKey(Identities(a), KeyAt(Identities(b), k))
  {
    hide Count, IndexOf, SameCarried;
  }

  /** A report written from one reading agrees with another exactly when the other reads the same. */
  lemma {:induction false} AgreesAgainExactly(first: FactSide, second: FactSide, before: FactSide, after: FactSide)
    requires Follows(first, before, after) && NewOnesAreFree(first, second, before)
    ensures Agrees(second, after) <==> ReadsAgain(first, second, before)
  {
    hide Count, IndexOf, TextFacts, HasKey, KeyAt, Carries, HoldsDecision, KeyOfId, Unmatched, Decided;
    hide HistoriesFollow, StrandedFollow, NewOnesAreFree;
    var a, b, w := TextFacts(first.facts), TextFacts(second.facts), after.facts;
    LackedAreDecided(first, second, after);
    if Agrees(second, after) || ReadsAgain(first, second, before) {
      forall k | 0 <= k < |b|
        ensures HasKey(Identities(a), KeyAt(Identities(b), k))
        ensures Carries(b, a, k) <==> Carries(b, w, k)
      {
        if Carries(b, w, k) {
          NewIsNotCarried(first, second, before, after, k);
        } else {
          CarriedHasKey(b, a, k);
        }
        CarriesThrough(a, b, w, k);
      }
      forall h | h in second.history && KeyOfId(b, h.factId).Some?
        ensures var key := KeyOfId(b, h.factId).value;
          HoldsDecision(after, key, h.decision)
          <==> HoldsDecision(before, key, h.decision) || HoldsDecision(TextSide(first), key, h.decision)
      {
        HistoryIsHeldAlike(first, second, before, after, h);
      }
    }
  }

  // ----- Through the run -----

  /** Clearing links to another report's figures changes nothing of this. */
  lemma {:induction false} ClearedHolds(a: FactSide, b: FactSide)
    requires OnlyForeignLinksCleared(a, b)
    ensures a.history == b.history && Identities(a.facts) == Identities(b.facts)
    ensures forall key, d :: HoldsDecision(b, key, d) == HoldsDecision(a, key, d)
    ensures forall who :: HasDecided(b.facts, who) == HasDecided(a.facts, who)
  {
    hide Count, IndexOf, HoldsDecision;
    var gone :| Foreign(a.facts, gone) && b == a.(facts := Unlink(a.facts, gone));
    UnlinkKeepsHeld(a, gone);
    UnlinkKeepsRows(a.facts, gone);
    forall who ensures HasDecided(b.facts, who) == HasDecided(a.facts, who) {
      assert forall j :: 0 <= j < |a.facts| ==>
        b.facts[j].carried == a.facts[j].carried && b.facts[j].identity == a.facts[j].identity;
    }
  }

  lemma {:induction false} FollowsFromCleared(first: FactSide, a: FactSide, b: FactSide, after: FactSide)
    requires OnlyForeignLinksCleared(a, b) && Follows(first, b, after)
    ensures Follows(first, a, after)
  {
    ClearedHolds(a, b);
    hide Count, IndexOf, TextFacts, HasKey, Agrees, HoldsDecision, Unmatched, HasDecided, OnlyForeignLinksCleared;
  }

  lemma {:induction false} FollowsToCleared(first: FactSide, before: FactSide, a: FactSide, b: FactSide)
    requires Follows(first, before, a) && OnlyForeignLinksCleared(a, b)
    ensures Follows(first, before, b)
  {
    ClearedHolds(a, b);
    ClearedPlans(first, a, b);
    hide Count, IndexOf, TextFacts, HasKey, Agrees, HoldsDecision, HasDecided, OnlyForeignLinksCleared;
  }

  /** A report that agrees already follows from what it is. */
  lemma {:induction false} AgreeingIsFollowing(first: FactSide, side: FactSide)
    requires Agrees(first, side)
    ensures Follows(first, side, side)
  {
    hide Count, IndexOf, TextFacts, HasKey, CarriesUpTo, KeyAt, Decided;
    forall key, d | HoldsDecision(TextSide(first), key, d) ensures HoldsDecision(side, key, d) {
    }
    forall q | 0 <= q < |side.facts| && Unmatched(TextFacts(first.facts), side.facts, q)
      ensures HasDecided(side.facts, side.facts[q].identity)
    {
    }
  }

  /** The first `n` reports written follow from their readings and from what they held. */
  ghost predicate FollowsUpTo(reports: map<int, FactSide>, pairs: seq<Pair>, n: nat, now: map<int, FactSide>)
    requires n <= |pairs| && Held(pairs, reports) && now.Keys == reports.Keys
  {
    forall i :: 0 <= i < n ==> Follows(pairs[i].source, reports[pairs[i].doc], now[pairs[i].doc])
  }

  lemma {:induction false} StepFollows(now: map<int, FactSide>, free: int, doc: int, source: FactSide)
    requires Consistent(now, free) && doc in now && Readable(source) && HistoryStored(now[doc], free)
    ensures var after := WrittenTo(now, free, doc, PlanOf(source, now[doc]));
      && after.Some? && after.value.Keys == now.Keys
      && Follows(source, now[doc], after.value[doc])
      && (forall d :: d in now && d != doc ==> OnlyForeignLinksCleared(now[d], after.value[d]))
  {
    PlanStep(now, free, doc, source);
    hide Count, IndexOf, Keep, PlanOf, Applied, Agrees, HistoriesFollow, StrandedFollow, Storable, Apart, DecisionsFollow;
    hide OnlyForeignLinksCleared;
    WrittenHistories(source, now[doc], free);
    WrittenStrandedFollow(source, now[doc], free);
  }

  lemma {:induction false} WriteAllFollows(reports: map<int, FactSide>, next: int, pairs: seq<Pair>, n: nat)
    requires Consistent(reports, next) && Refreshable(pairs, reports) && n <= |pairs|
    requires forall d :: d in reports ==> HistoryStored(reports[d], next)
    ensures var r := WriteAll(reports, next, pairs, Plans(pairs, reports), n);
      r.Some? && FollowsUpTo(reports, pairs, n, r.value.0)
  {
    hide Count, IndexOf, Keep, PlanOf, WrittenTo, Underway, IsSettled, Consistent, Follows, OnlyForeignLinksCleared, HistoryStored;
    hide Refreshable;
    RefreshableIsHeld(pairs, reports);
    if n > 0 {
      hide FollowsUpTo;
      WriteAllFollows(reports, next, pairs, n - 1);
      WriteAllHolds(reports, next, pairs, n - 1);
      WriteAllGrows(reports, next, pairs, Plans(pairs, reports), n - 1);
      var (now, free) := WriteAll(reports, next, pairs, Plans(pairs, reports), n - 1).value;
      NextFollows(reports, next, pairs, n - 1, now, free);
    }
  }

  lemma {:induction false} NextFollows(reports: map<int, FactSide>, next: int, pairs: seq<Pair>, n: nat,
                                       now: map<int, FactSide>, free: int)
    requires Refreshable(pairs, reports) && n < |pairs| && Underway(reports, pairs, n, now, free) && next <= free
    requires HistoryStored(reports[pairs[n].doc], next)
    requires FollowsUpTo(reports, pairs, n, now)
    ensures var plan := PlanOf(pairs[n].source, reports[pairs[n].doc]);
      if IsSettled(plan) then FollowsUpTo(reports, pairs, n + 1, now)
      else var after := WrittenTo(now, free, pairs[n].doc, plan);
        after.Some? && FollowsUpTo(reports, pairs, n + 1, after.value)
  {
    hide Count, IndexOf, Keep, PlanOf, WrittenTo, IsSettled, Consistent, Follows, OnlyForeignLinksCleared, Agrees, DecisionsFollow;
    var doc, source := pairs[n].doc, pairs[n].source;
    var before := reports[doc];
    ClearedPlans(source, before, now[doc]);
    ClearedHolds(before, now[doc]);
    SettledMeansAgrees(source, before);
    if IsSettled(PlanOf(source, before)) {
      AgreeingIsFollowing(source, now[doc]);
      FollowsFromCleared(source, before, now[doc], now[doc]);
    } else {
      StepFollows(now, free, doc, source);
      var after := WrittenTo(now, free, doc, PlanOf(source, before)).value;
      FollowsFromCleared(source, before, now[doc], after[doc]);
      forall i | 0 <= i < n ensures Follows(pairs[i].source, reports[pairs[i].doc], after[pairs[i].doc]) {
        FollowsToCleared(pairs[i].source, reports[pairs[i].doc], now[pairs[i].doc], after[pairs[i].doc]);
      }
    }
  }

  /**
   * With something to do, a refresh goes through exactly when every source reads the second time
   * as it read the first: a condition on the two readings, and on what was superseded in the
   * target before the run. A figure that appears between the readings is covered unless a decided
   * figure of the target states what it states.
   */
  lemma {:induction false} CommitsWhenReadAgain(reports: map<int, FactSide>, next: int, pairs: seq<Pair>,
                                                second: seq<FactSide>, dryRun: bool)
    requires Consistent(reports, next) && Refreshable(pairs, reports) && |second| == |pairs|
    requires forall d :: d in reports ==> HistoryStored(reports[d], next)
    requires !AllAgree(pairs, reports)
    requires forall i :: 0 <= i < |pairs| ==> NewOnesAreFree(pairs[i].source, second[i], reports[pairs[i].doc])
    ensures var (outcome, after, _) := Refreshed(reports, next, pairs, second, dryRun);
      && (outcome.Ok? <==> forall i :: 0 <= i < |pairs| ==>
            ReadsAgain(pairs[i].source, second[i], reports[pairs[i].doc]))
      && (outcome.Err? ==> after == reports)
  {
    hide Count, IndexOf, Keep, PlanOf, Consistent, Refreshed, WriteAll, Agrees, ReadsAgain, Follows, NewOnesAreFree, Plans;
    hide HistoryStored;
    WriteAllFollows(reports, next, pairs, |pairs|);
    RefreshCommitsExactly(reports, next, pairs, second, dryRun);
    var written := AfterWriting(reports, next, pairs);
    var (outcome, after, _) := Refreshed(reports, next, pairs, second, dryRun);
    assert outcome.Ok? || outcome.Err?;
    forall i | 0 <= i < |pairs|
      ensures Agrees(Reread(pairs, second)[i].source, written[pairs[i].doc])
        <==> ReadsAgain(pairs[i].source, second[i], reports[pairs[i].doc])
    {
      assert Reread(pairs, second)[i] == Pair(second[i], pairs[i].doc);
      AgreesAgainExactly(pairs[i].source, second[i], reports[pairs[i].doc], written[pairs[i].doc]);
    }
  }
}
