/** The planner's loops, proved to compute the plan of `RefreshPlan`. */
module RefreshPlanner {
  import opened Wrappers
  import opened Figures
  import opened RefreshPlan

  const CARRIED_COLUMNS: seq<Column> := [
    VerificationStatus, VerifiedBy, VerifiedAt, CorrectedValue, ReviewerNote,
    ParserVersion, ExtractionConfidence, ExtractionMethod, ValidationState, ValidationReason,
    PerUnit, BboxX0, BboxY0, BboxX1, BboxY1
  ]

  lemma EveryColumnIsCarried(c: Column)
    ensures c in CARRIED_COLUMNS
  {
    hide Count, IndexOf;
    match c
    case VerificationStatus => assert CARRIED_COLUMNS[0] == c;
    case VerifiedBy => assert CARRIED_COLUMNS[1] == c;
    case VerifiedAt => assert CARRIED_COLUMNS[2] == c;
    case CorrectedValue => assert CARRIED_COLUMNS[3] == c;
    case ReviewerNote => assert CARRIED_COLUMNS[4] == c;
    case ParserVersion => assert CARRIED_COLUMNS[5] == c;
    case ExtractionConfidence => assert CARRIED_COLUMNS[6] == c;
    case ExtractionMethod => assert CARRIED_COLUMNS[7] == c;
    case ValidationState => assert CARRIED_COLUMNS[8] == c;
    case ValidationReason => assert CARRIED_COLUMNS[9] == c;
    case PerUnit => assert CARRIED_COLUMNS[10] == c;
    case BboxX0 => assert CARRIED_COLUMNS[11] == c;
    case BboxY0 => assert CARRIED_COLUMNS[12] == c;
    case BboxX1 => assert CARRIED_COLUMNS[13] == c;
    case BboxY1 => assert CARRIED_COLUMNS[14] == c;
  }

  method Compare(s: Carried, t: Carried) returns (columns: Carried)
    ensures columns == Differing(s, t)
  {
    hide Count, IndexOf;
    columns := map[];
    for i := 0 to |CARRIED_COLUMNS|
      invariant forall c :: c in columns <==> c in CARRIED_COLUMNS[..i] && Cell(s, c) != Cell(t, c)
      invariant forall c :: c in columns ==> columns[c] == Cell(s, c)
    {
      var column := CARRIED_COLUMNS[i];
      assert CARRIED_COLUMNS[..i + 1] == CARRIED_COLUMNS[..i] + [column];
      if Cell(s, column) != Cell(t, column) {
        columns := columns[column := Cell(s, column)];
      }
    }
    assert CARRIED_COLUMNS[..|CARRIED_COLUMNS|] == CARRIED_COLUMNS;
    forall c: Column ensures c in CARRIED_COLUMNS {
      EveryColumnIsCarried(c);
    }
  }

  /** The first `n` rows of one side, by key. */
  ghost predicate IsIndexUpTo(index: map<Key, Fact>, facts: seq<Fact>, n: nat)
    requires n <= |facts|
  {
    && (forall i :: 0 <= i < n ==>
          KeyAt(Identities(facts), i) in index && index[KeyAt(Identities(facts), i)] == facts[i])
    && (forall key :: key in index ==> HasKey(Identities(facts), key))
  }

  ghost predicate IsIndex(index: map<Key, Fact>, facts: seq<Fact>) {
    IsIndexUpTo(index, facts, |facts|)
  }

  lemma IndexNext(index: map<Key, Fact>, facts: seq<Fact>, n: nat)
    requires n < |facts| && IsIndexUpTo(index, facts, n)
    ensures IsIndexUpTo(index[KeyAt(Identities(facts), n) := facts[n]], facts, n + 1)
  {
    hide Count, IndexOf;
    var ids := Identities(facts);
    forall j | 0 <= j < n ensures KeyAt(ids, j) != KeyAt(ids, n) {
      KeysAreDistinct(ids, j, n);
    }
    KeyIsHeld(ids, n);
  }

  method IndexByKey(facts: seq<Fact>, keys: map<int, Key>) returns (index: map<Key, Fact>)
    requires IsKeyMap(keys, facts)
    ensures IsIndex(index, facts)
  {
    hide Count, IndexOf;
    index := map[];
    for i := 0 to |facts|
      invariant IsIndexUpTo(index, facts, i)
    {
      IndexNext(index, facts, i);
      index := index[keys[facts[i].id] := facts[i]];
    }
  }

  lemma IndexFindsTheMatch(source: seq<Fact>, target: seq<Fact>, index: map<Key, Fact>, i: nat)
    requires i < |source| && IsIndex(index, target)
    ensures var key := KeyAt(Identities(source), i);
      var m := Match(source, target, i);
      && (key in index <==> m.Some?)
      && (m.Some? ==> index[key] == target[m.value])
  {
    hide Count, IndexOf;
  }

  lemma KeyMapFinds(facts: seq<Fact>, keys: map<int, Key>, id: int)
    requires InIdOrder(facts) && IsKeyMap(keys, facts)
    ensures KeyOfId(facts, id) == if id in keys then Some(keys[id]) else None
  {
    hide Count, IndexOf;
    if id in keys {
      var i :| 0 <= i < |facts| && facts[i].id == id;
      PositionOf(facts, i);
    }
  }

  method FindLink(fact: Fact, keys: map<int, Key>, ghost facts: seq<Fact>) returns (r: Option<Key>)
    requires InIdOrder(facts) && IsKeyMap(keys, facts)
    ensures r == LinkOf(fact, facts)
  {
    hide Count, IndexOf;
    if fact.sameFigureAs.None? {
      return None;
    }
    KeyMapFinds(facts, keys, fact.sameFigureAs.value);
    r := if fact.sameFigureAs.value in keys then Some(keys[fact.sameFigureAs.value]) else None;
  }

  /** What one source figure adds to the plan, given the target row its key finds. */
  method MatchedRow(ghost source: seq<Fact>, ghost target: seq<Fact>, i: nat, s: Fact, key: Key, t: Option<Fact>,
                    sourceIds: map<int, Key>, targetIds: map<int, Key>)
    returns (insert: seq<Fact>, update: seq<Update>, links: seq<Link>)
    requires i < |source| && source[i] == s && key == KeyAt(Identities(source), i)
    requires InIdOrder(source) && InIdOrder(target)
    requires IsKeyMap(sourceIds, source) && IsKeyMap(targetIds, target)
    requires t == match Match(source, target, i) case None => None case Some(j) => Some(target[j])
    ensures insert == InsertFor(source, target, i)
    ensures update == UpdateFor(source, target, i)
    ensures links == LinkFor(source, target, i)
  {
    hide Count, IndexOf;
    insert, update := [], [];
    var held := None;
    if t.None? {
      insert := [s];
    } else {
      var columns := Compare(s.carried, t.value.carried);
      if columns != map[] {
        update := [Update(t.value.id, columns)];
      }
      held := FindLink(t.value, targetIds, target);
    }
    var wanted := FindLink(s, sourceIds, source);
    links := if wanted != held then [Link(key, wanted)] else [];
  }

  /** One pass over the source figures: the inserts, updates and links of the plan. */
  method Matched(source: seq<Fact>, ghost target: seq<Fact>, tgt: map<Key, Fact>,
                 sourceIds: map<int, Key>, targetIds: map<int, Key>)
    returns (insert: seq<Fact>, update: seq<Update>, links: seq<Link>)
    requires InIdOrder(source) && InIdOrder(target)
    requires IsKeyMap(sourceIds, source) && IsKeyMap(targetIds, target) && IsIndex(tgt, target)
    ensures insert == Inserts(source, target, |source|)
    ensures update == Updates(source, target, |source|)
    ensures links == Links(source, target, |source|)
  {
    hide Count, IndexOf;
    insert, update, links := [], [], [];
    for i := 0 to |source|
      invariant insert == Inserts(source, target, i)
      invariant update == Updates(source, target, i)
      invariant links == Links(source, target, i)
    {
      var key := KeyFound(source, sourceIds, i);
      IndexFindsTheMatch(source, target, tgt, i);
      var t := if key in tgt then Some(tgt[key]) else None;
      var added, changed, linked := MatchedRow(source, target, i, source[i], key, t, sourceIds, targetIds);
      insert, update, links := insert + added, update + changed, links + linked;
    }
  }

  method KeyFound(facts: seq<Fact>, keys: map<int, Key>, i: nat) returns (key: Key)
    requires i < |facts| && IsKeyMap(keys, facts)
    ensures key == KeyAt(Identities(facts), i)
  {
    hide Count, IndexOf;
    key := keys[facts[i].id];
  }

  /** One pass over the target figures: the ids to retire, and the number of the decided unmatched. */
  method UnmatchedFigures(ghost source: seq<Fact>, src: map<Key, Fact>, target: seq<Fact>, targetIds: map<int, Key>)
    returns (retire: seq<int>, stranded: nat)
    requires IsIndex(src, source) && IsKeyMap(targetIds, target)
    ensures retire == Retires(source, target, |target|)
    ensures stranded == Stranded(source, target, |target|)
  {
    hide Count, IndexOf, KeyAt;
    retire, stranded := [], 0;
    for j := 0 to |target|
      invariant retire == Retires(source, target, j)
      invariant stranded == Stranded(source, target, j)
    {
      var key := KeyFound(target, targetIds, j);
      UnmatchedIsNotIndexed(source, target, src, j);
      if key !in src {
        if Decided(target[j]) {
          stranded := stranded + 1;
        } else {
          retire := retire + [target[j].id];
        }
      }
    }
  }

  lemma UnmatchedIsNotIndexed(source: seq<Fact>, target: seq<Fact>, src: map<Key, Fact>, j: nat)
    requires j < |target| && IsIndex(src, source)
    ensures KeyAt(Identities(target), j) !in src <==> Unmatched(source, target, j)
  {
    hide Count, IndexOf;
    IndexFindsTheMatch(target, source, src, j);
  }

  /** One pass over the source's history: the rows to copy, each under its figure's key. */
  method MissingHistory(text: seq<Fact>, history: seq<History>, target: FactSide,
                        sourceIds: map<int, Key>, targetIds: map<int, Key>)
    returns (missing: seq<KeyedHistory>)
    requires InIdOrder(text) && InIdOrder(target.facts)
    requires IsKeyMap(sourceIds, text) && IsKeyMap(targetIds, target.facts)
    ensures missing == Missing(text, target, history)
  {
    hide Count, IndexOf, KeyAt, KeyOfId;
    var held: set<(Option<Key>, Decision)> := {};
    for i := 0 to |target.history|
      invariant HeldUpTo(held, target, i)
    {
      var h := target.history[i];
      KeyMapFinds(target.facts, targetIds, h.factId);
      held := held + {(if h.factId in targetIds then Some(targetIds[h.factId]) else None, h.decision)};
    }

    missing := [];
    for i := 0 to |history|
      invariant missing == Missing(text, target, history[..i])
    {
      var h := history[i];
      assert history[..i + 1][..i] == history[..i];
      KeyMapFinds(text, sourceIds, h.factId);
      if h.factId in sourceIds {
        var key := sourceIds[h.factId];
        HeldFindsDecisions(held, target, key, h.decision);
        if (Some(key), h.decision) !in held {
          missing := missing + [KeyedHistory(key, h)];
        }
      }
    }
    assert history[..|history|] == history;
  }

  ghost predicate HeldUpTo(held: set<(Option<Key>, Decision)>, target: FactSide, n: nat)
    requires n <= |target.history|
  {
    forall k, d :: (k, d) in held <==>
      exists i :: 0 <= i < n && target.history[i].decision == d && KeyOfId(target.facts, target.history[i].factId) == k
  }

  lemma HeldFindsDecisions(held: set<(Option<Key>, Decision)>, target: FactSide, key: Key, d: Decision)
    requires HeldUpTo(held, target, |target.history|)
    ensures (Some(key), d) in held <==> HoldsDecision(target, key, d)
  {
    hide Count, IndexOf;
  }

  lemma {:induction false} TextInOrder(facts: seq<Fact>)
    requires InIdOrder(facts)
    ensures InIdOrder(TextFacts(facts))
  {
    hide Count, IndexOf;
    if facts != [] {
      var front := facts[..|facts| - 1];
      TextInOrder(front);
      TextMembers(front);
      assert forall f :: f in TextFacts(front) ==> f in front && f.id < facts[|facts| - 1].id;
    }
  }

  /** Rows already in id order are left as they are. */
  lemma SortedInOrder(facts: seq<Fact>)
    requires InIdOrder(facts)
    ensures Sorted(facts) == facts
  {
    hide Count, IndexOf;
    FetchOrderIsIrrelevant(facts, facts);
  }

  method PlanRefresh(source: FactSide, target: FactSide) returns (plan: Plan)
    requires InIdOrder(source.facts) && InIdOrder(target.facts)
    ensures plan == PlanOf(source, target)
  {
    hide Count, IndexOf;
    var text := TextFacts(source.facts);
    TextInOrder(source.facts);
    SortedInOrder(text);
    SortedInOrder(target.facts);
    var sourceIds := KeysOf(text);
    var targetIds := KeysOf(target.facts);
    var src := IndexByKey(text, sourceIds);
    var tgt := IndexByKey(target.facts, targetIds);
    var insert, update, links := Matched(text, target.facts, tgt, sourceIds, targetIds);
    var retire, stranded := UnmatchedFigures(text, src, target.facts, targetIds);
    var history := MissingHistory(text, source.history, target, sourceIds, targetIds);
    plan := Plan(insert, update, retire, stranded, history, links, |source.facts| - |text|);
  }
}
