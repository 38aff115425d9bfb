/**
 * Figures read from one report, and the key each is found by.
 *
 * Two databases number their rows independently, so a figure is matched by what
 * it states (its identity) and by its place among the figures stating exactly
 * the same, in id order.
 */
module Figures {
  import opened Wrappers

  /** What a figure states: the columns two readings of one figure share. */
  datatype Identity = Identity(
    page: int,
    kind: string,
    rawText: string,
    value: Option<string>,
    field: Option<string>
  )

  /** The columns a refresh carries: the decision, and the parser's last word. */
  datatype Column =
    | VerificationStatus | VerifiedBy | VerifiedAt | CorrectedValue | ReviewerNote
    | ParserVersion | ExtractionConfidence | ExtractionMethod
    | ValidationState | ValidationReason | PerUnit
    | BboxX0 | BboxY0 | BboxX1 | BboxY1

  type Carried = map<Column, Option<string>>

  /** One row of `document_fact`, within one report. */
  datatype Fact = Fact(
    id: int,
    identity: Identity,
    carried: Carried,
    sameFigureAs: Option<int>,
    pageReading: Option<int>
  )

  /** A superseded decision, kept under the figure it was made about. */
  datatype Decision = Decision(
    status: string,
    reviewer: Option<string>,
    decidedAt: Option<string>,
    corrected: Option<string>,
    note: Option<string>
  )
  datatype History = History(factId: int, decision: Decision, supersededAt: string)

  datatype FactSide = FactSide(facts: seq<Fact>, history: seq<History>)

  /** A column as read from a row: one the row does not carry reads as null. */
  function Cell(c: Carried, column: Column): Option<string> {
    if column in c then c[column] else None
  }

  predicate SameCarried(a: Carried, b: Carried) {
    forall column: Column :: Cell(a, column) == Cell(b, column)
  }

  predicate Decided(f: Fact) {
    Cell(f.carried, VerificationStatus) in
      {Some("verified"), Some("corrected"), Some("rejected")}
  }

  predicate Unverified(f: Fact) {
    Cell(f.carried, VerificationStatus) == Some("unverified")
  }

  predicate FromScan(f: Fact) {
    f.pageReading.Some?
  }

  /** Rows as `ORDER BY id` returns them: the ids are a primary key, ascending. */
  predicate InIdOrder(facts: seq<Fact>) {
    forall i, j :: 0 <= i < j < |facts| ==> facts[i].id < facts[j].id
  }

  predicate DistinctIds(facts: seq<Fact>) {
    forall i, j :: 0 <= i < j < |facts| ==> facts[i].id != facts[j].id
  }

  // ----- Keys: an identity, and an ordinal among its equals -----

  datatype Key = Key(identity: Identity, n: nat)

  function Identities(facts: seq<Fact>): (ids: seq<Identity>)
    ensures |ids| == |facts|
    ensures forall i :: 0 <= i < |facts| ==> ids[i] == facts[i].identity
  {
    seq(|facts|, i requires 0 <= i < |facts| => facts[i].identity)
  }

  function Count(ids: seq<Identity>, who: Identity): nat {
    if ids == [] then 0
    else Count(ids[..|ids| - 1], who) + if ids[|ids| - 1] == who then 1 else 0
  }

  /** The key of the figure at position `i`, positions being in id order. */
  function KeyAt(ids: seq<Identity>, i: nat): Key
    requires i < |ids|
  {
    Key(ids[i], Count(ids[..i], ids[i]))
  }

  predicate HasKey(ids: seq<Identity>, key: Key) {
    key.n < Count(ids, key.identity)
  }

  /** Where a key sits: every ordinal below the group's size is taken by someone. */
  function IndexOf(ids: seq<Identity>, key: Key): (i: nat)
    requires HasKey(ids, key)
    ensures i < |ids| && KeyAt(ids, i) == key
  {
    var last := |ids| - 1;
    if KeyAt(ids, last) == key then last
    else
      var i := IndexOf(ids[..last], key);
      assert ids[..last][..i] == ids[..i];
      i
  }

  lemma CountNone(who: Identity)
    ensures Count([], who) == 0
  {
  }

  lemma CountPush(ids: seq<Identity>, id: Identity, who: Identity)
    ensures Count(ids + [id], who) == Count(ids, who) + if id == who then 1 else 0
  {
    assert (ids + [id])[..|ids|] == ids;
  }

  lemma CountTake(ids: seq<Identity>, i: nat, who: Identity)
    requires i < |ids|
    ensures Count(ids[..i + 1], who) == Count(ids[..i], who) + if ids[i] == who then 1 else 0
  {
    assert ids[..i + 1][..i] == ids[..i];
  }

  lemma {:induction false} CountMonotone(ids: seq<Identity>, i: nat, j: nat, who: Identity)
    requires i <= j <= |ids|
    ensures Count(ids[..i], who) <= Count(ids[..j], who)
    decreases j - i
  {
    if i < j {
      CountMonotone(ids, i, j - 1, who);
      CountTake(ids, j - 1, who);
    }
  }

  /** No two figures of one report share a key, and every figure's key is held. */
  lemma {:induction false} KeysAreDistinct(ids: seq<Identity>, i: nat, j: nat)
    requires i < j < |ids|
    ensures KeyAt(ids, i) != KeyAt(ids, j)
  {
    CountTake(ids, i, ids[i]);
    CountMonotone(ids, i + 1, j, ids[i]);
  }

  lemma {:induction false} KeyIsHeld(ids: seq<Identity>, i: nat)
    requires i < |ids|
    ensures HasKey(ids, KeyAt(ids, i)) && IndexOf(ids, KeyAt(ids, i)) == i
  {
    CountTake(ids, i, ids[i]);
    CountMonotone(ids, i + 1, |ids|, ids[i]);
    assert ids[..|ids|] == ids;
    var k := IndexOf(ids, KeyAt(ids, i));
    if k < i {
      KeysAreDistinct(ids, k, i);
    } else if i < k {
      KeysAreDistinct(ids, i, k);
    }
  }

  // ----- Rows by id -----

  /** The position of the row with this id, if there is one. */
  function Position(facts: seq<Fact>, id: int): (r: Option<nat>)
    ensures r.Some? ==> r.value < |facts| && facts[r.value].id == id
    ensures r.None? ==> forall i :: 0 <= i < |facts| ==> facts[i].id != id
  {
    if facts == [] then None
    else if facts[|facts| - 1].id == id then Some(|facts| - 1)
    else Position(facts[..|facts| - 1], id)
  }

  /** The key of the row with this id, if there is one. */
  function KeyOfId(facts: seq<Fact>, id: int): Option<Key> {
    match Position(facts, id)
    case None => None
    case Some(i) => Some(KeyAt(Identities(facts), i))
  }

  lemma PositionOf(facts: seq<Fact>, i: nat)
    requires i < |facts| && DistinctIds(facts)
    ensures Position(facts, facts[i].id) == Some(i)
  {
    var p := Position(facts, facts[i].id);
    assert p.Some?;
  }

  // ----- `keysOf`: the loop that hands the keys out -----

  /** Rows sorted by id, the later of two equal ids after the earlier. */
  function Sorted(facts: seq<Fact>): seq<Fact> {
    if facts == [] then []
    else InsertById(Sorted(facts[..|facts| - 1]), facts[|facts| - 1])
  }

  function InsertById(s: seq<Fact>, f: Fact): (r: seq<Fact>)
    ensures forall x :: x in r <==> x in s || x == f
  {
    if s == [] then [f]
    else
      var last := s[|s| - 1];
      assert s == s[..|s| - 1] + [last];
      if last.id <= f.id then s + [f] else InsertById(s[..|s| - 1], f) + [last]
  }

  lemma {:induction false} InsertedInOrder(s: seq<Fact>, f: Fact)
    requires InIdOrder(s)
    requires forall x :: x in s ==> x.id != f.id
    ensures InIdOrder(InsertById(s, f))
  {
    if s != [] && s[|s| - 1].id > f.id {
      var front := s[..|s| - 1];
      assert forall x :: x in front ==> x in s;
      InsertedInOrder(front, f);
      var r := InsertById(front, f);
      forall i | 0 <= i < |r| ensures r[i].id < s[|s| - 1].id {
        assert r[i] in r;
      }
    }
  }

  /** Sorting keeps the rows and puts them in id order. */
  lemma {:induction false} SortedIsSorted(facts: seq<Fact>)
    requires DistinctIds(facts)
    ensures InIdOrder(Sorted(facts))
    ensures forall x :: x in Sorted(facts) <==> x in facts
  {
    if facts != [] {
      var front, last := facts[..|facts| - 1], facts[|facts| - 1];
      assert facts == front + [last];
      SortedIsSorted(front);
      InsertedInOrder(Sorted(front), last);
    }
  }

  /** Rows in id order are determined by which rows they are. */
  lemma {:induction false} OrderIsUnique(a: seq<Fact>, b: seq<Fact>)
    requires InIdOrder(a) && InIdOrder(b)
    requires forall x :: x in a <==> x in b
    ensures a == b
  {
    assert b != [] ==> b[0] in a;
    if a == [] {
    } else {
      assert a[|a| - 1] in b && b != [];
      var m, n := |a| - 1, |b| - 1;
      assert a[m] in b && b[n] in a;
      assert a[m] == b[n];
      forall x ensures x in a[..m] <==> x in b[..n] {
        if x in a[..m] { assert x in a && x.id < a[m].id; assert x in b; }
        if x in b[..n] { assert x in b && x.id < b[n].id; assert x in a; }
      }
      OrderIsUnique(a[..m], b[..n]);
      assert a == a[..m] + [a[m]] && b == b[..n] + [b[n]];
    }
  }

  /** A table's keys do not depend on the order its rows were fetched in. */
  lemma {:induction false} FetchOrderIsIrrelevant(fetched: seq<Fact>, inOrder: seq<Fact>)
    requires DistinctIds(fetched) && InIdOrder(inOrder)
    requires forall x :: x in fetched <==> x in inOrder
    ensures Sorted(fetched) == inOrder
  {
    SortedIsSorted(fetched);
    OrderIsUnique(Sorted(fetched), inOrder);
  }

  ghost predicate IsKeyMapUpTo(keys: map<int, Key>, facts: seq<Fact>, n: nat)
    requires n <= |facts|
  {
    && (forall i :: 0 <= i < n ==>
          facts[i].id in keys && keys[facts[i].id] == KeyAt(Identities(facts), i))
    && (forall id :: id in keys ==> exists i :: 0 <= i < n && facts[i].id == id)
  }

  ghost predicate IsKeyMap(keys: map<int, Key>, facts: seq<Fact>) {
    IsKeyMapUpTo(keys, facts, |facts|)
  }

  method KeysOf(facts: seq<Fact>) returns (keys: map<int, Key>)
    requires DistinctIds(facts)
    ensures IsKeyMap(keys, Sorted(facts))
  {
    hide Count, Sorted, IndexOf;
    var sorted := Sorted(facts);
    SortedIsSorted(facts);
    var ids := Identities(sorted);
    var seen: map<Identity, nat> := map[];
    keys := map[];
    TallyNone();
    assert ids[..0] == [];
    for i := 0 to |sorted|
      invariant Tallied(seen, ids[..i])
      invariant IsKeyMapUpTo(keys, sorted, i)
    {
      var identity := sorted[i].identity;
      var n := if identity in seen then seen[identity] else 0;
      TallyNext(seen, ids, i);
      seen := seen[identity := n + 1];
      keys := keys[sorted[i].id := Key(identity, n)];
    }
  }

  ghost predicate Tallied(seen: map<Identity, nat>, ids: seq<Identity>) {
    forall who :: Count(ids, who) == if who in seen then seen[who] else 0
  }

  lemma TallyNone()
    ensures Tallied(map[], [])
  {
  }

  lemma TallyNext(seen: map<Identity, nat>, ids: seq<Identity>, i: nat)
    requires i < |ids| && Tallied(seen, ids[..i])
    ensures Tallied(seen[ids[i] := Count(ids[..i], ids[i]) + 1], ids[..i + 1])
  {
    forall who ensures Count(ids[..i + 1], who) == Count(ids[..i], who) + if who == ids[i] then 1 else 0 {
      CountTake(ids, i, who);
    }
  }
}
