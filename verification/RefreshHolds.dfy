/** The refresh theorem: writing a plan leaves nothing to plan. */
module RefreshHolds {
  import opened Wrappers
  import opened Figures
  import opened RefreshPlan
  import opened RefreshApply
  import opened RefreshPlaces
  import opened RefreshRows
  import opened RefreshLinks

  /** The report once its links are written too. */
  function Written(text: seq<Fact>, target: seq<Fact>, next: int): seq<Fact> {
    var base := Base(text, target, next);
    LinkRows(base, base, Links(text, target, |text|))
  }

  lemma WrittenKeepsRows(text: seq<Fact>, target: seq<Fact>, next: int)
    ensures SameRows(Written(text, target, next), Base(text, target, next))
    ensures Identities(Written(text, target, next)) == Identities(Refilled(text, target, next))
  {
    hide Count, IndexOf, Keep, Gone, Inserts;
    BaseKeepsRows(text, target, next);
    assert Identities(Written(text, target, next)) == Identities(Base(text, target, next));
  }

  lemma WrittenKeepsKeys(text: seq<Fact>, target: seq<Fact>, next: int, id: int)
    ensures KeyOfId(Written(text, target, next), id) == KeyOfId(Base(text, target, next), id)
  {
    hide Count, IndexOf, Keep, Gone, Inserts;
    WrittenKeepsRows(text, target, next);
    SameKeys(Written(text, target, next), Base(text, target, next), id);
  }

  lemma {:induction false} WrittenLink(text: seq<Fact>, target: seq<Fact>, next: int, i: nat)
    requires Storable(target, next) && i < |text|
    ensures var rows := Written(text, target, next);
      var p := Place(text, target, i);
      p < |rows| && LinkOf(rows[p], rows) == LinkOf(text[i], text)
  {
    hide Count, IndexOf, Keep, Gone, Inserts;
    var base := Base(text, target, next);
    var rows := Written(text, target, next);
    var p := Place(text, target, i);
    WantedIsKnown(text, target, next, i);
    IdForPlace(text, target, next, i);
    PlaceLinked(base[p], text, target, next, |text|, i);
    if LinkFor(text, target, i) == [] {
      SettledLinkStands(text, target, next, i);
    }
    if rows[p].sameFigureAs.Some? {
      WrittenKeepsKeys(text, target, next, rows[p].sameFigureAs.value);
    }
  }

  lemma {:induction false} WrittenMatch(text: seq<Fact>, target: seq<Fact>, next: int, i: nat)
    requires Storable(target, next) && i < |text|
    ensures Match(text, Written(text, target, next), i) == Some(Place(text, target, i))
  {
    hide Count, IndexOf, Keep, Gone, Inserts;
    WrittenKeepsRows(text, target, next);
    EveryKeyIsFound(text, target, next, i);
  }

  lemma {:induction false} WrittenCarries(text: seq<Fact>, target: seq<Fact>, next: int)
    requires Storable(target, next)
    ensures CarriesUpTo(text, Written(text, target, next), |text|)
  {
    hide Count, IndexOf, Keep, Gone, Inserts;
    forall i | 0 <= i < |text| ensures Carries(text, Written(text, target, next), i) {
      WrittenMatch(text, target, next, i);
      WrittenLink(text, target, next, i);
      PlaceCarries(text, target, next, i);
    }
  }

  lemma {:induction false} WrittenStranded(text: seq<Fact>, target: seq<Fact>, next: int, q: nat)
    requires Storable(target, next) && q < |Written(text, target, next)|
    requires Unmatched(text, Written(text, target, next), q)
    ensures Decided(Written(text, target, next)[q])
  {
    hide Count, IndexOf, Keep, Gone, Inserts;
    WrittenKeepsRows(text, target, next);
    BaseKeepsRows(text, target, next);
    StrandedStaysDecided(text, target, next, q);
  }

  // ----- History -----

  function WrittenHistory(text: seq<Fact>, target: FactSide, next: int, missing: seq<KeyedHistory>): seq<History>
    requires KnowsHistory(Base(text, target.facts, next), missing)
  {
    KeepHistory(target.history, Departed(text, target.facts)) + NewHistory(Base(text, target.facts, next), missing)
  }

  lemma {:induction false} MissingHas(text: seq<Fact>, target: FactSide, history: seq<History>, h: History)
    requires h in history && KeyOfId(text, h.factId).Some?
    requires !HoldsDecision(target, KeyOfId(text, h.factId).value, h.decision)
    ensures KeyedHistory(KeyOfId(text, h.factId).value, h) in Missing(text, target, history)
  {
    hide Count, IndexOf, Keep, Gone, Inserts;
    var last := history[|history| - 1];
    var front := history[..|history| - 1];
    assert history == front + [last];
    var key := KeyOfId(text, h.factId).value;
    if h in front {
      MissingHas(text, target, front, h);
    } else {
      assert MissingFor(text, target, last) == [KeyedHistory(key, h)];
      assert MissingFor(text, target, last)[0] in MissingFor(text, target, last);
    }
  }

  /** A decision the target held under a source key stays held under it. */
  lemma {:induction false} HeldStaysHeld(text: seq<Fact>, target: FactSide, next: int,
                                         missing: seq<KeyedHistory>, key: Key, d: Decision)
    requires Storable(target.facts, next) && KnowsHistory(Base(text, target.facts, next), missing)
    requires exists k :: 0 <= k < |text| && key == KeyAt(Identities(text), k)
    requires HoldsDecision(target, key, d)
    ensures HoldsDecision(FactSide(Written(text, target.facts, next), WrittenHistory(text, target, next, missing)), key, d)
  {
    hide Count, IndexOf, Keep, Gone, Inserts;
    var h :| h in target.history && h.decision == d && KeyOfId(target.facts, h.factId) == Some(key);
    assert target.facts[Position(target.facts, h.factId).value] in target.facts;
    LinkTargetStands(text, target.facts, next, h.factId, Some(key));
    KeepHistoryMembers(target.history, Departed(text, target.facts));
    BaseKeepsKeys(text, target.facts, next, h.factId);
    WrittenKeepsKeys(text, target.facts, next, h.factId);
    assert h in WrittenHistory(text, target, next, missing);
  }

  /** A decision the target lacked is written under the key it was missing from. */
  lemma {:induction false} MissingIsWritten(text: seq<Fact>, target: FactSide, next: int,
                                            missing: seq<KeyedHistory>, k: nat, row: History)
    requires Storable(target.facts, next) && KnowsHistory(Base(text, target.facts, next), missing)
    requires k < |text| && KeyedHistory(KeyAt(Identities(text), k), row) in missing
    ensures HoldsDecision(FactSide(Written(text, target.facts, next), WrittenHistory(text, target, next, missing)),
                          KeyAt(Identities(text), k), row.decision)
  {
    hide Count, IndexOf, Keep, Gone, Inserts;
    var key := KeyAt(Identities(text), k);
    var base := Base(text, target.facts, next);
    IdForPlace(text, target.facts, next, k);
    var i :| 0 <= i < |missing| && missing[i] == KeyedHistory(key, row);
    var added := NewHistory(base, missing);
    assert added[i] in added;
    WrittenKeepsKeys(text, target.facts, next, added[i].factId);
    assert added[i] in WrittenHistory(text, target, next, missing);
  }

  lemma {:induction false} HistoryHolds(source: FactSide, target: FactSide, next: int, h: History)
    requires Storable(target.facts, next) && h in source.history
    requires var text := TextFacts(source.facts);
      KnowsHistory(Base(text, target.facts, next), Missing(text, target, source.history))
      && KeyOfId(text, h.factId).Some?
    ensures var text := TextFacts(source.facts);
      HoldsDecision(FactSide(Written(text, target.facts, next),
                             WrittenHistory(text, target, next, Missing(text, target, source.history))),
                    KeyOfId(text, h.factId).value, h.decision)
  {
    hide Count, IndexOf, Keep, Gone, Inserts;
    var text := TextFacts(source.facts);
    var missing := Missing(text, target, source.history);
    var k := Position(text, h.factId).value;
    var key := KeyAt(Identities(text), k);
    if HoldsDecision(target, key, h.decision) {
      HeldStaysHeld(text, target, next, missing, key, h.decision);
    } else {
      MissingHas(text, target, source.history, h);
      MissingIsWritten(text, target, next, missing, k, h);
    }
  }

  // ----- The theorems -----

  /** No key lookup of the write fails, and this is what it writes. */
  lemma {:induction false} ApplyWrites(source: FactSide, target: FactSide, next: int)
    requires Storable(target.facts, next)
    ensures var text := TextFacts(source.facts);
      var missing := Missing(text, target, source.history);
      && KnowsHistory(Base(text, target.facts, next), missing)
      && Applied(target, PlanOf(source, target), next)
         == Some(FactSide(Written(text, target.facts, next), WrittenHistory(text, target, next, missing)))
  {
    hide Count, IndexOf, Keep, Gone, Inserts;
    var text := TextFacts(source.facts);
    LinksAreKnown(text, target.facts, next, |text|);
    HistoryIsKnown(text, target, next, source.history);
    assert Placed(target.facts, PlanOf(source, target), next) == Base(text, target.facts, next);
  }

  /**
   * Refresh converges: for every source and every stored target, the plan can be written
   * without a failed lookup, and the plan made again afterwards is empty.
   */
  lemma {:induction false} RefreshConverges(source: FactSide, target: FactSide, next: int)
    requires Storable(target.facts, next)
    ensures var after := Applied(target, PlanOf(source, target), next);
      && after.Some?
      && Agrees(source, after.value)
      && IsSettled(PlanOf(source, after.value))
  {
    hide Count, IndexOf, Keep, Gone, Inserts;
    var text := TextFacts(source.facts);
    ApplyWrites(source, target, next);
    var after := Applied(target, PlanOf(source, target), next).value;
    WrittenCarries(text, target.facts, next);
    forall q | 0 <= q < |after.facts| && Unmatched(text, after.facts, q) ensures Decided(after.facts[q]) {
      WrittenStranded(text, target.facts, next, q);
    }
    forall h | h in source.history && KeyOfId(text, h.factId).Some?
      ensures HoldsDecision(after, KeyOfId(text, h.factId).value, h.decision)
    {
      HistoryHolds(source, target, next, h);
    }
    SettledMeansAgrees(source, after);
  }

  lemma {:induction false} ScanFree(facts: seq<Fact>)
    requires forall f :: f in facts ==> !FromScan(f)
    ensures TextFacts(facts) == facts
  {
    hide Count, IndexOf, Keep, Gone, Inserts;
    if facts != [] {
      assert facts == facts[..|facts| - 1] + [facts[|facts| - 1]];
      ScanFree(facts[..|facts| - 1]);
    }
  }

  /** A report with nothing read from a scan agrees with itself, whatever ids its copy has. */
  lemma {:induction false} CopyAgrees(source: FactSide, copy: FactSide)
    requires forall f :: f in source.facts ==> !FromScan(f)
    requires Identities(copy.facts) == Identities(source.facts)
    requires forall i :: 0 <= i < |source.facts| ==>
      SameCarried(source.facts[i].carried, copy.facts[i].carried)
      && LinkOf(source.facts[i], source.facts) == LinkOf(copy.facts[i], copy.facts)
    requires forall h :: h in source.history && KeyOfId(source.facts, h.factId).Some? ==>
      HoldsDecision(copy, KeyOfId(source.facts, h.factId).value, h.decision)
    ensures IsSettled(PlanOf(source, copy))
  {
    hide Count, IndexOf, Keep, Gone, Inserts;
    ScanFree(source.facts);
    forall i | 0 <= i < |source.facts| ensures Carries(source.facts, copy.facts, i) {
      KeyIsHeld(Identities(source.facts), i);
    }
    forall j | 0 <= j < |copy.facts| ensures !Unmatched(source.facts, copy.facts, j) {
      KeyIsHeld(Identities(copy.facts), j);
    }
    SettledMeansAgrees(source, copy);
  }
}
