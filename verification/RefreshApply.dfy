/**
 * Writing a plan into the target, and why the plan made again is empty.
 *
 * Each step is given as a function of the report's rows: delete, insert, update, then
 * history and links under keys computed afresh. The theorem is that the rows so written
 * agree with the source, so the program's own check of its work cannot fail.
 */
module RefreshApply {
  import opened Wrappers
  import opened Figures
  import opened RefreshPlan

  // ----- The steps -----

  /** Rows a plan's retirement really deletes: the statement spares anything decided. */
  function Gone(facts: seq<Fact>, retire: seq<int>): set<int> {
    set f | f in facts && f.id in retire && Unverified(f) :: f.id
  }

  function Keep(facts: seq<Fact>, gone: set<int>): seq<Fact> {
    if facts == [] then [] else Keep(facts[..|facts| - 1], gone) + KeepOne(facts[|facts| - 1], gone)
  }

  lemma {:induction false} KeepMembers(facts: seq<Fact>, gone: set<int>)
    ensures forall f :: f in Keep(facts, gone) <==> f in facts && f.id !in gone
  {
    hide Count, IndexOf;
    if facts != [] {
      KeepMembers(facts[..|facts| - 1], gone);
      assert facts == facts[..|facts| - 1] + [facts[|facts| - 1]];
    }
  }

  function KeepOne(f: Fact, gone: set<int>): seq<Fact> {
    if f.id in gone then [] else [f]
  }

  /** `ON DELETE SET NULL` on the link a deleted row leaves behind. */
  function UnlinkOne(f: Fact, gone: set<int>): (r: Fact)
    ensures r == f.(sameFigureAs := r.sameFigureAs)
  {
    if f.sameFigureAs.Some? && f.sameFigureAs.value in gone then f.(sameFigureAs := None) else f
  }

  function Unlink(facts: seq<Fact>, gone: set<int>): (r: seq<Fact>)
    ensures |r| == |facts|
    ensures forall i :: 0 <= i < |r| ==> r[i] == UnlinkOne(facts[i], gone)
  {
    seq(|facts|, i requires 0 <= i < |facts| => UnlinkOne(facts[i], gone))
  }

  /** `ON DELETE CASCADE` on a deleted row's history. */
  function KeepHistory(history: seq<History>, gone: set<int>): seq<History> {
    if history == [] then []
    else KeepHistory(history[..|history| - 1], gone) + KeepHistoryOne(history[|history| - 1], gone)
  }

  function KeepHistoryOne(h: History, gone: set<int>): seq<History> {
    if h.factId in gone then [] else [h]
  }

  lemma {:induction false} KeepHistoryMembers(history: seq<History>, gone: set<int>)
    ensures forall h :: h in KeepHistory(history, gone) <==> h in history && h.factId !in gone
  {
    hide Count, IndexOf;
    if history != [] {
      KeepHistoryMembers(history[..|history| - 1], gone);
      assert history == history[..|history| - 1] + [history[|history| - 1]];
    }
  }

  /** An inserted row: the source's columns, no link yet, no reading. */
  function NewRow(f: Fact, id: int): Fact {
    Fact(id, f.identity, f.carried, None, None)
  }

  function NewRows(insert: seq<Fact>, next: int): (r: seq<Fact>)
    ensures |r| == |insert|
    ensures forall i :: 0 <= i < |r| ==> r[i] == NewRow(insert[i], next + i)
  {
    seq(|insert|, i requires 0 <= i < |insert| => NewRow(insert[i], next + i))
  }

  function UpdateRow(row: Fact, u: Update): Fact {
    if row.id == u.targetId then row.(carried := row.carried + u.columns) else row
  }

  function RowUpdated(row: Fact, update: seq<Update>): (r: Fact)
    ensures r == row.(carried := r.carried)
  {
    if update == [] then row
    else UpdateRow(RowUpdated(row, update[..|update| - 1]), update[|update| - 1])
  }

  function UpdateRows(facts: seq<Fact>, update: seq<Update>): (r: seq<Fact>)
    ensures |r| == |facts|
    ensures forall i :: 0 <= i < |r| ==> r[i] == RowUpdated(facts[i], update)
  {
    seq(|facts|, i requires 0 <= i < |facts| => RowUpdated(facts[i], update))
  }

  /** The row a key names in a table, once every figure exists. */
  function IdFor(base: seq<Fact>, key: Key): Option<int> {
    if HasKey(Identities(base), key) then Some(base[IndexOf(Identities(base), key)].id) else None
  }

  /** Whether both ends of a link are found; the program throws when one is not. */
  predicate KnowsLink(base: seq<Fact>, l: Link) {
    IdFor(base, l.figure).Some? && (l.sameAs.Some? ==> IdFor(base, l.sameAs.value).Some?)
  }

  predicate KnowsLinks(base: seq<Fact>, links: seq<Link>) {
    forall l :: l in links ==> KnowsLink(base, l)
  }

  /** The id a wanted link is written as. */
  function WrittenAs(base: seq<Fact>, wanted: Option<Key>): Option<int> {
    if wanted.None? then None else IdFor(base, wanted.value)
  }

  function LinkRow(row: Fact, base: seq<Fact>, l: Link): Fact {
    if IdFor(base, l.figure) == Some(row.id) then row.(sameFigureAs := WrittenAs(base, l.sameAs)) else row
  }

  function RowLinked(row: Fact, base: seq<Fact>, links: seq<Link>): (r: Fact)
    ensures r == row.(sameFigureAs := r.sameFigureAs)
  {
    if links == [] then row
    else LinkRow(RowLinked(row, base, links[..|links| - 1]), base, links[|links| - 1])
  }

  function LinkRows(facts: seq<Fact>, base: seq<Fact>, links: seq<Link>): (r: seq<Fact>)
    ensures |r| == |facts|
    ensures forall i :: 0 <= i < |r| ==> r[i] == RowLinked(facts[i], base, links)
  {
    seq(|facts|, i requires 0 <= i < |facts| => RowLinked(facts[i], base, links))
  }

  predicate KnowsHistory(base: seq<Fact>, rows: seq<KeyedHistory>) {
    forall h :: h in rows ==> IdFor(base, h.figure).Some?
  }

  function NewHistory(base: seq<Fact>, rows: seq<KeyedHistory>): (r: seq<History>)
    requires KnowsHistory(base, rows)
    ensures |r| == |rows|
    ensures forall i :: 0 <= i < |r| ==> r[i] == rows[i].row.(factId := IdFor(base, rows[i].figure).value)
  {
    seq(|rows|, i requires 0 <= i < |rows| => rows[i].row.(factId := IdFor(base, rows[i].figure).value))
  }

  /** The report's rows once the figures are in place: retired, inserted, updated. */
  function Placed(facts: seq<Fact>, plan: Plan, next: int): seq<Fact> {
    var gone := Gone(facts, plan.retire);
    UpdateRows(Unlink(Keep(facts, gone), gone) + NewRows(plan.insert, next), plan.update)
  }

  /** A plan written into a report; `None` where a key finds no figure. */
  function Applied(target: FactSide, plan: Plan, next: int): Option<FactSide> {
    var base := Placed(target.facts, plan, next);
    if KnowsHistory(base, plan.history) && KnowsLinks(base, plan.links) then
      Some(FactSide(
             LinkRows(base, base, plan.links),
             KeepHistory(target.history, Gone(target.facts, plan.retire)) + NewHistory(base, plan.history)))
    else None
  }

  // ----- Rows as a database holds them -----

  /** The status is an enum of four values. */
  predicate StatusKnown(f: Fact) {
    Decided(f) || Unverified(f)
  }

  /** Ids ascend and are below the sequence's next value; so are the rows links point at. */
  predicate Storable(facts: seq<Fact>, next: int) {
    && InIdOrder(facts)
    && (forall f :: f in facts ==> f.id < next && StatusKnown(f))
    && (forall f :: f in facts && f.sameFigureAs.Some? ==> f.sameFigureAs.value < next)
  }

  // ----- What retirement leaves -----

  /** The retired rows are exactly the undecided ones the source lacks. */
  lemma {:induction false} GoneIsRetired(text: seq<Fact>, target: seq<Fact>, next: int, j: nat)
    requires Storable(target, next) && j < |target|
    ensures target[j].id in Gone(target, Retires(text, target, |target|))
       <==> Unmatched(text, target, j) && !Decided(target[j])
  {
    hide Count, IndexOf;
    RetiresHolds(text, target, |target|, j);
    var gone := Gone(target, Retires(text, target, |target|));
    if target[j].id in gone {
      var f :| f in target && f.id == target[j].id && Unverified(f);
      var k :| 0 <= k < |target| && target[k] == f;
      assert k == j;
    } else {
      assert target[j] in target;
    }
  }

  lemma {:induction false} RetiresHolds(text: seq<Fact>, target: seq<Fact>, n: nat, j: nat)
    requires InIdOrder(target) && j < |target| && n <= |target|
    ensures target[j].id in Retires(text, target, n)
       <==> j < n && Unmatched(text, target, j) && !Decided(target[j])
  {
    hide Count, IndexOf;
    if n > 0 {
      RetiresHolds(text, target, n - 1, j);
      assert target[j].id == target[n - 1].id ==> j == n - 1;
    }
  }

  lemma KeepTake(facts: seq<Fact>, gone: set<int>, j: nat)
    requires j < |facts|
    ensures Keep(facts[..j + 1], gone) == Keep(facts[..j], gone) + KeepOne(facts[j], gone)
  {
    hide Count, IndexOf;
    assert facts[..j + 1][..j] == facts[..j];
  }

  lemma {:induction false} KeepPrefix(facts: seq<Fact>, gone: set<int>, i: nat, j: nat)
    requires i <= j <= |facts|
    ensures Keep(facts[..i], gone) <= Keep(facts[..j], gone)
    decreases j
  {
    hide Count, IndexOf;
    if i < j {
      KeepPrefix(facts, gone, i, j - 1);
      KeepTake(facts, gone, j - 1);
    }
  }

  /** A surviving row sits where the survivors before it end. */
  lemma {:induction false} KeepPlaces(facts: seq<Fact>, gone: set<int>, j: nat)
    requires j < |facts| && facts[j].id !in gone
    ensures Keep(facts[..j], gone) + [facts[j]] <= Keep(facts, gone)
  {
    hide Count, IndexOf;
    KeepTake(facts, gone, j);
    KeepPrefix(facts, gone, j + 1, |facts|);
    assert facts[..|facts|] == facts;
  }

  /**
   * Retirement never disturbs an ordinal the source uses: of every prefix, as many equals
   * survive as the source has, or all of them where there are fewer.
   */
  lemma {:induction false} KeepCount(text: seq<Fact>, target: seq<Fact>, next: int, j: nat, who: Identity)
    requires Storable(target, next) && j <= |target|
    ensures
      var gone := Gone(target, Retires(text, target, |target|));
      var before := Count(Identities(target[..j]), who);
      var after := Count(Identities(Keep(target[..j], gone)), who);
      var wanted := Count(Identities(text), who);
      if before <= wanted then after == before else wanted <= after
  {
    hide Count, IndexOf;
    var gone := Gone(target, Retires(text, target, |target|));
    if j > 0 {
      KeepCount(text, target, next, j - 1, who);
      var f := target[j - 1];
      var ids := Identities(target);
      KeepTake(target, gone, j - 1);
      IdentitiesTake(target, j);
      IdentitiesTake(target, j - 1);
      CountTake(ids, j - 1, who);
      CountKept(Keep(target[..j - 1], gone), f, gone, who);
      GoneIsRetired(text, target, next, j - 1);
    }
  }

  lemma IdentitiesTake(facts: seq<Fact>, j: nat)
    requires j <= |facts|
    ensures Identities(facts[..j]) == Identities(facts)[..j]
  {
    hide Count, IndexOf;
  }

  lemma CountKept(kept: seq<Fact>, f: Fact, gone: set<int>, who: Identity)
    ensures Count(Identities(kept + KeepOne(f, gone)), who)
         == Count(Identities(kept), who) + if f.id !in gone && f.identity == who then 1 else 0
  {
    hide Count;
    if f.id in gone {
      assert kept + KeepOne(f, gone) == kept;
    } else {
      assert Identities(kept + [f]) == Identities(kept) + [f.identity];
      CountPush(Identities(kept), f.identity, who);
    }
  }
}
