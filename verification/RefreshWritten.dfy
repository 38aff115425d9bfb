/**
 * What a refresh writes, row by row: the figures it leaves, and the superseded decisions it hands
 * over. Each row of the source's history that the target lacks is written once, and no row of the
 * target's goes but with its figure.
 */
module RefreshWritten {
  import opened Wrappers
  import opened Positions
  import opened Figures
  import opened RefreshPlan
  import opened RefreshApply
  import opened RefreshPlaces
  import opened RefreshRows
  import opened RefreshLinks
  import opened RefreshHolds
  import opened RefreshDecisions
  import opened RefreshStorable

  /** A row of the source's history under a text figure, whose decision the target lacks there. */
  ghost predicate IsLacked(text: seq<Fact>, target: FactSide, h: History) {
    var key := KeyOfId(text, h.factId);
    && key.Some?
    && !exists t :: t in target.history && t.decision == h.decision && KeyOfId(target.facts, t.factId) == key
  }

  ghost function Lacked(text: seq<Fact>, target: FactSide, history: seq<History>): set<nat> {
    set p: nat | p < |history| && IsLacked(text, target, history[p])
  }

  /** A row of the target's history whose figure is not retired. */
  ghost predicate Stays(text: seq<Fact>, target: seq<Fact>, h: History) {
    forall j :: 0 <= j < |target| && target[j].id == h.factId ==> !Unmatched(text, target, j) || Decided(target[j])
  }

  ghost function Staying(text: seq<Fact>, target: seq<Fact>, history: seq<History>): set<nat> {
    set p: nat | p < |history| && Stays(text, target, history[p])
  }

  lemma {:induction false} MissingPositions(text: seq<Fact>, target: FactSide, history: seq<History>) returns (at: seq<nat>)
    ensures Lists(at, Lacked(text, target, history))
    ensures |Missing(text, target, history)| == |at|
    ensures forall k :: 0 <= k < |at| ==>
      && at[k] < |history| && KeyOfId(text, history[at[k]].factId).Some?
      && Missing(text, target, history)[k] ==
           KeyedHistory(KeyOfId(text, history[at[k]].factId).value, history[at[k]])
  {
    hide KeyOfId;
    at := [];
    if history != [] {
      var n := |history| - 1;
      var front := history[..n];
      at := MissingPositions(text, target, front);
      var s := Lacked(text, target, front);
      if IsLacked(text, target, history[n]) {
        ListsPush(at, s, n);
        at := at + [n];
        assert Lacked(text, target, history) == s + {n};
      } else {
        assert Lacked(text, target, history) == s;
      }
    }
  }

  lemma GoneMeansRetired(text: seq<Fact>, target: seq<Fact>, next: int, h: History)
    requires Storable(target, next)
    ensures h.factId !in Departed(text, target) <==> Stays(text, target, h)
  {
    hide Unmatched, Retires, Decided;
    forall j | 0 <= j < |target|
      ensures target[j].id in Departed(text, target) <==> Unmatched(text, target, j) && !Decided(target[j])
    {
      GoneIsRetired(text, target, next, j);
    }
  }

  lemma {:induction false} KeptPositions(text: seq<Fact>, target: seq<Fact>, next: int, history: seq<History>)
    returns (at: seq<nat>)
    requires Storable(target, next)
    ensures Lists(at, Staying(text, target, history))
    ensures |KeepHistory(history, Departed(text, target))| == |at|
    ensures forall k :: 0 <= k < |at| ==>
      at[k] < |history| && KeepHistory(history, Departed(text, target))[k] == history[at[k]]
  {
    hide Stays, Departed, Storable;
    at := [];
    if history != [] {
      var n := |history| - 1;
      var front := history[..n];
      at := KeptPositions(text, target, next, front);
      GoneMeansRetired(text, target, next, history[n]);
      var s := Staying(text, target, front);
      if Stays(text, target, history[n]) {
        ListsPush(at, s, n);
        at := at + [n];
        assert Staying(text, target, history) == s + {n};
      } else {
        assert Staying(text, target, history) == s;
      }
    }
  }

  /** A row is written under the id its key finds, and is found there by that key. */
  lemma {:induction false} WrittenUnderItsKey(text: seq<Fact>, target: seq<Fact>, next: int, key: Key)
    requires Storable(target, next) && IdFor(Base(text, target, next), key).Some?
    ensures KeyOfId(Written(text, target, next), IdFor(Base(text, target, next), key).value) == Some(key)
  {
    hide Count, IndexOf, Keep, Gone, Inserts, Refilled, Written, Base;
    var base := Base(text, target, next);
    var id := IdFor(base, key).value;
    WrittenKeepsKeys(text, target, next, id);
    RefilledInOrder(text, target, next);
    BaseKeepsRows(text, target, next);
    PositionOf(base, IndexOf(Identities(base), key));
  }

  /**
   * The history of a written report, row by row: the target's rows whose figures stay, in order,
   * then one row for each the target lacked, in the source's order, with its decision and the time
   * it was superseded, under the figure of the same key.
   */
  lemma {:induction false} HistoryIsHandedOver(source: FactSide, target: FactSide, next: int)
    returns (kept: seq<nat>, added: seq<nat>)
    requires Storable(target.facts, next)
    ensures Applied(target, PlanOf(source, target), next).Some?
    ensures var text, after := TextFacts(source.facts), Applied(target, PlanOf(source, target), next).value;
      && Lists(kept, Staying(text, target.facts, target.history))
      && Lists(added, Lacked(text, target, source.history))
      && |after.history| == |kept| + |added|
      && (forall k :: 0 <= k < |kept| ==> kept[k] < |target.history| && after.history[k] == target.history[kept[k]])
      && (forall k :: 0 <= k < |added| ==>
            && added[k] < |source.history|
            && var h, w := source.history[added[k]], after.history[|kept| + k];
            && w.decision == h.decision && w.supersededAt == h.supersededAt
            && KeyOfId(after.facts, w.factId) == KeyOfId(text, h.factId))
    ensures |PlanOf(source, target).history| == |Lacked(TextFacts(source.facts), target, source.history)|
  {
    hide Count, IndexOf, Keep, Gone, Inserts, Written, Base, TextFacts, Missing, Lacked, Staying, KeyOfId, IdFor, Departed;
    hide KeepHistory, Lists, Storable;
    var text := TextFacts(source.facts);
    ApplyWrites(source, target, next);
    added := MissingPositions(text, target, source.history);
    ListedOnce(added, Lacked(text, target, source.history));
    kept := KeptPositions(text, target.facts, next, target.history);
    hide Applied, PlanOf;
    var missing := Missing(text, target, source.history);
    var after := Applied(target, PlanOf(source, target), next).value;
    forall k | 0 <= k < |added|
      ensures added[k] < |source.history|
      ensures var h, w := source.history[added[k]], after.history[|kept| + k];
        && w.decision == h.decision && w.supersededAt == h.supersededAt
        && KeyOfId(after.facts, w.factId) == KeyOfId(text, h.factId)
    {
      assert missing[k] in missing;
      WrittenUnderItsKey(text, target.facts, next, missing[k].figure);
    }
  }

  // ----- The figures -----

  ghost function ReadFromText(facts: seq<Fact>): set<nat> {
    set p: nat | p < |facts| && facts[p].pageReading == None
  }

  lemma ReadFromTextPush(facts: seq<Fact>, f: Fact)
    ensures ReadFromText(facts + [f]) == ReadFromText(facts) + if f.pageReading == None then {|facts|} else {}
    ensures forall p :: p in ReadFromText(facts) ==> p < |facts|
  {
  }

  /** A figure read from a scan takes no part: those that do are the rest, in order. */
  lemma {:induction false} TextFactsAre(facts: seq<Fact>) returns (at: seq<nat>)
    ensures Lists(at, ReadFromText(facts)) && |TextFacts(facts)| == |at|
    ensures forall k :: 0 <= k < |at| ==> at[k] < |facts| && TextFacts(facts)[k] == facts[at[k]]
  {
    at := [];
    if facts != [] {
      var front, last := facts[..|facts| - 1], facts[|facts| - 1];
      at := TextFactsAre(front);
      assert facts == front + [last];
      ReadFromTextPush(front, last);
      hide ReadFromText;
      if last.pageReading == None {
        ListsPush(at, ReadFromText(front), |front|);
        at := at + [|front|];
      } else {
        assert ReadFromText(front) + {} == ReadFromText(front);
      }
      hide Lists;
    }
  }

  function StatusOf(f: Fact): Option<string> {
    Cell(f.carried, VerificationStatus)
  }

  /** A row is decided under three of the four statuses the schema knows. */
  lemma StatusesAre(f: Fact)
    ensures StatusKnown(f) <==> StatusOf(f) in {Some("unverified"), Some("verified"), Some("corrected"), Some("rejected")}
    ensures Decided(f) <==> StatusOf(f) in {Some("verified"), Some("corrected"), Some("rejected")}
  {
  }

  /** A row the refresh deletes: unverified, under a key no figure of the source has. */
  predicate IsDeleted(text: seq<Fact>, target: seq<Fact>, j: nat)
    requires j < |target|
  {
    Unmatched(text, target, j) && StatusOf(target[j]) == Some("unverified")
  }

  predicate PointsAtDeleted(text: seq<Fact>, target: seq<Fact>, f: Fact) {
    f.sameFigureAs.Some? && exists j :: 0 <= j < |target| && target[j].id == f.sameFigureAs.value && IsDeleted(text, target, j)
  }

  /** A row the source has no figure for keeps everything but a link to a deleted row. */
  predicate IsLeftAlone(text: seq<Fact>, target: seq<Fact>, was: Fact, r: Fact) {
    r == was.(sameFigureAs := if PointsAtDeleted(text, target, was) then None else was.sameFigureAs)
  }

  /** A matched row keeps its id, identity and reading, and takes its source figure's columns. */
  predicate IsBroughtUp(s: Fact, was: Fact, r: Fact) {
    r.id == was.id && r.identity == was.identity && r.pageReading == was.pageReading && SameCarried(s.carried, r.carried)
  }

  lemma {:induction false} DeletedAreGone(text: seq<Fact>, target: seq<Fact>, next: int, j: nat)
    requires Storable(target, next) && j < |target|
    ensures target[j].id in Departed(text, target) <==> IsDeleted(text, target, j)
  {
    GoneIsRetired(text, target, next, j);
    assert target[j] in target;
    hide Unmatched, Retires;
  }

  lemma UnlinkedIsLeft(text: seq<Fact>, target: seq<Fact>, next: int, f: Fact)
    requires Storable(target, next)
    ensures IsLeftAlone(text, target, f, UnlinkOne(f, Departed(text, target)))
  {
    hide IsDeleted, Retires, Storable;
    forall j | 0 <= j < |target| ensures target[j].id in Departed(text, target) <==> IsDeleted(text, target, j) {
      DeletedAreGone(text, target, next, j);
    }
    if f.sameFigureAs.Some? && f.sameFigureAs.value in Departed(text, target) {
      GoneIsHeld(text, target, f.sameFigureAs.value);
    }
  }

  lemma GoneIsHeld(text: seq<Fact>, target: seq<Fact>, id: int)
    requires id in Departed(text, target)
    ensures exists j :: 0 <= j < |target| && target[j].id == id
  {
    hide Retires;
    var f :| f in target && f.id == id;
  }

  /** A row's link is written only by its own figure of the source. */
  lemma {:induction false} StrandedLink(row: Fact, text: seq<Fact>, target: seq<Fact>, next: int, n: nat, q: nat)
    requires Storable(target, next) && n <= |text|
    requires q < |Base(text, target, next)| && row.id == Base(text, target, next)[q].id
    requires !HasKey(Identities(text), KeyAt(Identities(Base(text, target, next)), q))
    ensures RowLinked(row, Base(text, target, next), Links(text, target, n)) == row
  {
    hide Count, IndexOf, Keep, Gone, Inserts, LinkFor, LinkOf, Base, Refilled, HasKey, KeyAt;
    if n > 0 {
      var base := Base(text, target, next);
      StrandedLink(row, text, target, next, n - 1, q);
      RowLinkedStep(row, base, text, target, n - 1);
      OthersId(text, target, next, n - 1, q);
    } else {
      assert Links(text, target, 0) == [];
    }
  }

  lemma OthersId(text: seq<Fact>, target: seq<Fact>, next: int, k: nat, q: nat)
    requires Storable(target, next) && k < |text| && q < |Base(text, target, next)|
    requires !HasKey(Identities(text), KeyAt(Identities(Base(text, target, next)), q))
    ensures IdFor(Base(text, target, next), KeyAt(Identities(text), k)) != Some(Base(text, target, next)[q].id)
  {
    hide Count, IndexOf, Keep, Gone, Inserts, Base, Refilled;
    var base := Base(text, target, next);
    IdForPlace(text, target, next, k);
    RefilledInOrder(text, target, next);
    BaseKeepsRows(text, target, next);
    KeyIsHeld(Identities(text), k);
  }

  /** Where a row of the target ends up. */
  lemma {:induction false} PlaceOfKept(text: seq<Fact>, target: seq<Fact>, next: int, j: nat) returns (q: nat)
    requires Storable(target, next) && j < |target| && !IsDeleted(text, target, j)
    ensures q < |Refilled(text, target, next)|
    ensures Refilled(text, target, next)[q] == UnlinkOne(target[j], Departed(text, target))
  {
    hide Count, IndexOf, Keep, Gone, Inserts, IsDeleted, Retires;
    DeletedAreGone(text, target, next, j);
    KeepPlaces(target, Departed(text, target), j);
    q := |Keep(target[..j], Departed(text, target))|;
  }

  /**
   * Every row the target had: deleted exactly where it is unverified and the source has no figure
   * under its key; left alone where it is decided and the source has none; and otherwise brought up
   * to the source's figure.
   */
  lemma {:induction false} OldRowBecomes(source: FactSide, target: FactSide, next: int, j: nat)
    requires Storable(target.facts, next) && j < |target.facts|
    ensures Applied(target, PlanOf(source, target), next).Some?
    ensures var text, after := TextFacts(source.facts), Applied(target, PlanOf(source, target), next).value.facts;
      if IsDeleted(text, target.facts, j) then forall r :: r in after ==> r.id != target.facts[j].id
      else if Unmatched(text, target.facts, j) then exists r :: r in after && IsLeftAlone(text, target.facts, target.facts[j], r)
      else exists r :: r in after && IsBroughtUp(Counterpart(text, target.facts, j), target.facts[j], r)
  {
    hide Count, IndexOf, Keep, Gone, Inserts, Updates, Links, TextFacts, PlanOf, Applied, IsDeleted, Unmatched, Storable;
    hide IsLeftAlone, IsBroughtUp, Missing, Departed, Counterpart, Refilled, Base, Written;
    ApplyWrites(source, target, next);
    var text := TextFacts(source.facts);
    if IsDeleted(text, target.facts, j) {
      DeletedIsNotWritten(text, target.facts, next, j);
    } else {
      var q := KeptBecomes(text, target.facts, next, j);
      assert Written(text, target.facts, next)[q] in Written(text, target.facts, next);
    }
  }

  lemma {:induction false} DeletedIsNotWritten(text: seq<Fact>, target: seq<Fact>, next: int, j: nat)
    requires Storable(target, next) && j < |target| && IsDeleted(text, target, j)
    ensures forall r :: r in Written(text, target, next) ==> r.id != target[j].id
  {
    hide Count, IndexOf, Gone, Inserts, IsDeleted, Retires, Written, Keep;
    DeletedAreGone(text, target, next, j);
    KeepMembers(target, Departed(text, target));
    WrittenKeepsRows(text, target, next);
    BaseKeepsRows(text, target, next);
    assert target[j] in target;
    var kept := Survivors(text, target);
    forall q | 0 <= q < |Refilled(text, target, next)| ensures Refilled(text, target, next)[q].id != target[j].id {
      if q < |kept| {
        assert kept[q] in kept;
      }
    }
  }

  lemma {:induction false} KeptBecomes(text: seq<Fact>, target: seq<Fact>, next: int, j: nat) returns (q: nat)
    requires Storable(target, next) && j < |target| && !IsDeleted(text, target, j)
    ensures q < |Written(text, target, next)|
    ensures if Unmatched(text, target, j) then IsLeftAlone(text, target, target[j], Written(text, target, next)[q])
            else IsBroughtUp(Counterpart(text, target, j), target[j], Written(text, target, next)[q])
  {
    hide Count, IndexOf, Keep, Gone, Inserts, Updates, Links, IsDeleted, Unmatched, Storable;
    hide Departed, Counterpart, Refilled, IsLeftAlone;
    q := PlaceOfKept(text, target, next, j);
    var row := Refilled(text, target, next)[q];
    UnlinkedIsLeft(text, target, next, target[j]);
    RowBecomes(text, target, next, j, row);
    assert Base(text, target, next)[q] == RowUpdated(row, Updates(text, target, |text|));
    if Unmatched(text, target, j) {
      StrandedIsLeft(text, target, next, j, q);
    }
  }

  lemma {:induction false} StrandedIsLeft(text: seq<Fact>, target: seq<Fact>, next: int, j: nat, q: nat)
    requires Storable(target, next) && j < |target| && Unmatched(text, target, j)
    requires q < |Refilled(text, target, next)| && Refilled(text, target, next)[q].id == target[j].id
    ensures q < |Written(text, target, next)| && Written(text, target, next)[q] == Refilled(text, target, next)[q]
  {
    hide Count, IndexOf, Keep, Gone, Inserts, Refilled, HasKey, KeyAt;
    var row := Refilled(text, target, next)[q];
    StrandedRowStays(row, text, target, j);
    BaseKeepsRows(text, target, next);
    KeptKeyIsUnknown(text, target, next, j, q);
    StrandedLink(row, text, target, next, |text|, q);
  }

  /** A row of no source key still has none after the retirement. */
  lemma {:induction false} KeptKeyIsUnknown(text: seq<Fact>, target: seq<Fact>, next: int, j: nat, q: nat)
    requires Storable(target, next) && j < |target| && Unmatched(text, target, j)
    requires q < |Refilled(text, target, next)| && Refilled(text, target, next)[q].id == target[j].id
    ensures !HasKey(Identities(text), KeyAt(Identities(Refilled(text, target, next)), q))
  {
    hide Count, IndexOf, Keep, Gone, Inserts, Refilled;
    var ids := Identities(Refilled(text, target, next));
    var key := KeyAt(ids, q);
    if HasKey(Identities(text), key) {
      var i := IndexOf(Identities(text), key);
      EveryKeyIsFound(text, target, next, i);
      KeyIsHeld(ids, q);
      var row := RowAtPlace(text, target, next, i);
    }
  }

  /** A new row copies a figure of the source read from its text, one whose key the target lacked. */
  predicate IsCopyOf(s: Fact, r: Fact) {
    s.pageReading == None && r.pageReading == None && r.identity == s.identity && SameCarried(s.carried, r.carried)
  }

  lemma {:induction false} NewRowIsCopied(source: FactSide, target: FactSide, next: int, r: Fact) returns (i: nat)
    requires Storable(target.facts, next)
    requires var after := Applied(target, PlanOf(source, target), next);
      after.Some? && r in after.value.facts && r.id >= next
    ensures var text := TextFacts(source.facts);
      && i < |text| && text[i] in source.facts && IsCopyOf(text[i], r)
      && !HasKey(Identities(target.facts), KeyAt(Identities(text), i))
  {
    hide Count, IndexOf, Keep, Gone, Inserts, PlanOf, Applied, Refilled, Base, Storable, SameCarried;
    ApplyWrites(source, target, next);
    TextMembers(source.facts);
    var text := TextFacts(source.facts);
    i := InsertedAt(text, target.facts, next, r);
    assert text[i] in text;
  }

  lemma {:induction false} InsertedAt(text: seq<Fact>, target: seq<Fact>, next: int, r: Fact) returns (i: nat)
    requires Storable(target, next) && r in Written(text, target, next) && r.id >= next
    ensures i < |text| && Match(text, target, i).None?
    ensures r.identity == text[i].identity && r.pageReading == None && SameCarried(text[i].carried, r.carried)
  {
    hide Count, IndexOf, Keep, Gone, Inserts, SameCarried, Match, Written, Refilled, Base, Survivors;
    var q: nat :| q < |Written(text, target, next)| && Written(text, target, next)[q] == r;
    WrittenIds(text, target, next, q);
    i := InsertedFrom(text, target, next, q);
    PlaceOfInserted(text, target, next, i);
    PlaceCarries(text, target, next, i);
    WrittenFrom(text, target, next, q);
  }

  lemma InsertedFrom(text: seq<Fact>, target: seq<Fact>, next: int, q: nat) returns (i: nat)
    requires |Survivors(text, target)| <= q < |Written(text, target, next)|
    ensures i < |text| && Match(text, target, i).None? && Place(text, target, i) == q
  {
    hide Count, IndexOf, Keep, Gone, Inserts, Match;
    WrittenKeepsRows(text, target, next);
    BaseKeepsRows(text, target, next);
    i := InsertOrigin(text, target, |text|, q - |Survivors(text, target)|);
  }

  /** The writes after the inserts change a row's columns and its link, and nothing else. */
  lemma WrittenFrom(text: seq<Fact>, target: seq<Fact>, next: int, q: nat)
    requires q < |Written(text, target, next)|
    ensures q < |Refilled(text, target, next)| && q < |Base(text, target, next)|
    ensures var was, r := Refilled(text, target, next)[q], Written(text, target, next)[q];
      && r == was.(carried := r.carried, sameFigureAs := r.sameFigureAs)
      && r.carried == Base(text, target, next)[q].carried
  {
    hide Count, IndexOf, Refilled, Updates, Links;
  }
}
