/**
 * Facts printed twice in one bilingual report, paired: the same value in the Devanagari half
 * and in the Latin half of one document.
 *
 * A value that two facts of one half share is ambiguous and makes no pair; such values, and those
 * of one half alone, only show in the counts.
 */
module FigureLink {
  import opened Wrappers

  datatype Half = Devanagari | Latin

  datatype Fact = Fact(id: nat, documentId: nat, pageNumber: nat, value: Option<string>)

  /** What a group is of: one value in one document. */
  datatype Key = Key(documentId: nat, value: string)

  datatype Group = Group(devanagari: seq<Fact>, latin: seq<Fact>)

  datatype Pair = Pair(citationId: nat, countedId: nat)

  datatype Outcome = Outcome(pairs: seq<Pair>, ambiguous: nat, unpaired: nat)

  /** Which half of its report each page belongs to, where that is known. */
  type Halves = map<(nat, nat), Half>

  // ----- Grouping -----

  predicate IsPlaced(f: Fact, halves: Halves) {
    f.value.Some? && (f.documentId, f.pageNumber) in halves
  }

  function KeyOf(f: Fact): Key
    requires f.value.Some?
  {
    Key(f.documentId, f.value.value)
  }

  predicate Belongs(f: Fact, halves: Halves, key: Key, half: Half) {
    IsPlaced(f, halves) && KeyOf(f) == key && halves[(f.documentId, f.pageNumber)] == half
  }

  /** The facts holding a value in one half, in the order given. */
  function Members(facts: seq<Fact>, halves: Halves, key: Key, half: Half): seq<Fact> {
    if facts == [] then []
    else
      var last := facts[|facts| - 1];
      Members(facts[..|facts| - 1], halves, key, half) + if Belongs(last, halves, key, half) then [last] else []
  }

  function GroupOf(facts: seq<Fact>, halves: Halves, key: Key): Group {
    Group(Members(facts, halves, key, Devanagari), Members(facts, halves, key, Latin))
  }

  /** The values stated, each with its document. */
  function Keys(facts: seq<Fact>, halves: Halves): set<Key> {
    set f | f in facts && IsPlaced(f, halves) :: KeyOf(f)
  }

  predicate IsUnpaired(g: Group) { g.devanagari == [] || g.latin == [] }

  predicate IsPaired(g: Group) { |g.devanagari| == 1 && |g.latin| == 1 }

  predicate IsAmbiguous(g: Group) { !IsUnpaired(g) && !IsPaired(g) }

  function PairOf(g: Group): Pair
    requires IsPaired(g)
  {
    Pair(g.devanagari[0].id, g.latin[0].id)
  }

  // ----- What the outcome has to be -----

  ghost predicate PairsExactly(facts: seq<Fact>, halves: Halves, among: set<Key>, pairs: seq<Pair>) {
    && (forall p :: p in pairs <==> exists k :: k in among && IsPaired(GroupOf(facts, halves, k))
                                               && p == PairOf(GroupOf(facts, halves, k)))
    && |pairs| == |PairedAmong(facts, halves, among)|
  }

  ghost function PairedAmong(facts: seq<Fact>, halves: Halves, among: set<Key>): set<Key> {
    set k | k in among && IsPaired(GroupOf(facts, halves, k))
  }

  ghost function AmbiguousAmong(facts: seq<Fact>, halves: Halves, among: set<Key>): set<Key> {
    set k | k in among && IsAmbiguous(GroupOf(facts, halves, k))
  }

  ghost function UnpairedAmong(facts: seq<Fact>, halves: Halves, among: set<Key>): set<Key> {
    set k | k in among && IsUnpaired(GroupOf(facts, halves, k))
  }

  /** One pair for each value held exactly once in each half; the rest counted for what they are. */
  ghost predicate IsOutcome(facts: seq<Fact>, halves: Halves, among: set<Key>, o: Outcome) {
    && PairsExactly(facts, halves, among, o.pairs)
    && o.ambiguous == |AmbiguousAmong(facts, halves, among)|
    && o.unpaired == |UnpairedAmong(facts, halves, among)|
  }

  // ----- The loops -----

  lemma {:induction false} NoMembersWithoutKey(facts: seq<Fact>, halves: Halves, key: Key, half: Half)
    requires key !in Keys(facts, halves)
    ensures Members(facts, halves, key, half) == []
  {
    if facts != [] {
      assert facts[|facts| - 1] in facts;
      assert Keys(facts[..|facts| - 1], halves) <= Keys(facts, halves);
      NoMembersWithoutKey(facts[..|facts| - 1], halves, key, half);
    }
  }

  lemma {:induction false} UnplacedJoinsNothing(facts: seq<Fact>, halves: Halves, n: nat)
    requires n < |facts| && !IsPlaced(facts[n], halves)
    ensures Keys(facts[..n + 1], halves) == Keys(facts[..n], halves)
    ensures forall k :: GroupOf(facts[..n + 1], halves, k) == GroupOf(facts[..n], halves, k)
  {
    var more := facts[..n + 1];
    assert more[..n] == facts[..n] && more == facts[..n] + [facts[n]];
  }

  function Joined(g: Group, half: Half, f: Fact): Group {
    match half
    case Devanagari => g.(devanagari := g.devanagari + [f])
    case Latin => g.(latin := g.latin + [f])
  }

  /** A fact joins its own group and leaves the others as they were. */
  lemma {:induction false} FactJoinsItsGroup(facts: seq<Fact>, halves: Halves, n: nat)
    requires n < |facts| && IsPlaced(facts[n], halves)
    ensures var f, key := facts[n], KeyOf(facts[n]);
      && Keys(facts[..n + 1], halves) == Keys(facts[..n], halves) + {key}
      && GroupOf(facts[..n + 1], halves, key) ==
           Joined(GroupOf(facts[..n], halves, key), halves[(f.documentId, f.pageNumber)], f)
      && forall k :: k != key ==> GroupOf(facts[..n + 1], halves, k) == GroupOf(facts[..n], halves, k)
  {
    var more := facts[..n + 1];
    assert more[..n] == facts[..n] && more == facts[..n] + [facts[n]];
  }

  /** The groups in the order their first facts come. */
  method GroupFacts(facts: seq<Fact>, halves: Halves) returns (groups: map<Key, Group>, order: seq<Key>)
    ensures groups.Keys == Keys(facts, halves)
    ensures forall k :: k in order <==> k in groups
    ensures forall i, j :: 0 <= i < j < |order| ==> order[i] != order[j]
    ensures forall k :: k in groups ==> groups[k] == GroupOf(facts, halves, k)
  {
    hide Keys, GroupOf;
    groups, order := map[], [];
    NoKeys(halves);
    assert facts[..0] == [];
    for n := 0 to |facts|
      invariant groups.Keys == Keys(facts[..n], halves)
      invariant forall k :: k in order <==> k in groups
      invariant forall i, j :: 0 <= i < j < |order| ==> order[i] != order[j]
      invariant forall k :: k in groups ==> groups[k] == GroupOf(facts[..n], halves, k)
    {
      var fact := facts[n];
      if !IsPlaced(fact, halves) {
        UnplacedJoinsNothing(facts, halves, n);
        continue;
      }
      var key := KeyOf(fact);
      FactJoinsItsGroup(facts, halves, n);
      NewKeyIsEmpty(facts[..n], halves, key);
      var group := if key in groups then groups[key] else Group([], []);
      match halves[(fact.documentId, fact.pageNumber)] {
        case Devanagari => group := group.(devanagari := group.devanagari + [fact]);
        case Latin => group := group.(latin := group.latin + [fact]);
      }
      if key !in groups {
        order := order + [key];
      }
      groups := groups[key := group];
    }
    assert facts[..|facts|] == facts;
  }

  lemma NoKeys(halves: Halves)
    ensures Keys([], halves) == {}
  {
  }

  lemma NewKeyIsEmpty(facts: seq<Fact>, halves: Halves, key: Key)
    ensures key !in Keys(facts, halves) ==> GroupOf(facts, halves, key) == Group([], [])
  {
    if key !in Keys(facts, halves) {
      NoMembersWithoutKey(facts, halves, key, Devanagari);
      NoMembersWithoutKey(facts, halves, key, Latin);
    }
  }

  lemma AddOne(before: set<Key>, after: set<Key>, k: Key, counts: bool)
    requires k !in before && after == before + if counts then {k} else {}
    ensures |after| == |before| + if counts then 1 else 0
  {
  }

  lemma {:induction false} OneMoreUnpaired(facts: seq<Fact>, halves: Halves, among: set<Key>, k: Key)
    requires k !in among
    ensures |UnpairedAmong(facts, halves, among + {k})| ==
      |UnpairedAmong(facts, halves, among)| + if IsUnpaired(GroupOf(facts, halves, k)) then 1 else 0
  {
    hide GroupOf, IsUnpaired;
    AddOne(UnpairedAmong(facts, halves, among), UnpairedAmong(facts, halves, among + {k}), k,
      IsUnpaired(GroupOf(facts, halves, k)));
  }

  lemma {:induction false} OneMoreAmbiguous(facts: seq<Fact>, halves: Halves, among: set<Key>, k: Key)
    requires k !in among
    ensures |AmbiguousAmong(facts, halves, among + {k})| ==
      |AmbiguousAmong(facts, halves, among)| + if IsAmbiguous(GroupOf(facts, halves, k)) then 1 else 0
  {
    hide GroupOf, IsAmbiguous;
    AddOne(AmbiguousAmong(facts, halves, among), AmbiguousAmong(facts, halves, among + {k}), k,
      IsAmbiguous(GroupOf(facts, halves, k)));
  }

  lemma {:induction false} OneMorePaired(facts: seq<Fact>, halves: Halves, among: set<Key>, k: Key)
    requires k !in among
    ensures |PairedAmong(facts, halves, among + {k})| ==
      |PairedAmong(facts, halves, among)| + if IsPaired(GroupOf(facts, halves, k)) then 1 else 0
  {
    hide GroupOf, IsPaired;
    AddOne(PairedAmong(facts, halves, among), PairedAmong(facts, halves, among + {k}), k,
      IsPaired(GroupOf(facts, halves, k)));
  }

  lemma {:induction false} MorePairs(facts: seq<Fact>, halves: Halves, among: set<Key>, k: Key, pairs: seq<Pair>)
    requires k !in among && PairsExactly(facts, halves, among, pairs)
    ensures var g := GroupOf(facts, halves, k);
      PairsExactly(facts, halves, among + {k}, if IsPaired(g) then pairs + [PairOf(g)] else pairs)
  {
    OneMorePaired(facts, halves, among, k);
    hide GroupOf, IsPaired, PairOf, PairedAmong;
  }

  /** What one more group adds to the outcome. */
  function Counted(o: Outcome, g: Group): Outcome {
    if IsUnpaired(g) then o.(unpaired := o.unpaired + 1)
    else if !IsPaired(g) then o.(ambiguous := o.ambiguous + 1)
    else o.(pairs := o.pairs + [PairOf(g)])
  }

  lemma {:induction false} OneMoreGroup(facts: seq<Fact>, halves: Halves, among: set<Key>, k: Key, o: Outcome)
    requires k !in among && IsOutcome(facts, halves, among, o)
    ensures IsOutcome(facts, halves, among + {k}, Counted(o, GroupOf(facts, halves, k)))
  {
    hide GroupOf, PairsExactly, UnpairedAmong, AmbiguousAmong;
    OneMoreUnpaired(facts, halves, among, k);
    OneMoreAmbiguous(facts, halves, among, k);
    MorePairs(facts, halves, among, k, o.pairs);
  }

  lemma NothingYet(facts: seq<Fact>, halves: Halves)
    ensures IsOutcome(facts, halves, {}, Outcome([], 0, 0))
  {
  }

  /** Both loops: facts grouped by document and value, then one pair, or one count, a group. */
  method PairFigures(facts: seq<Fact>, halves: Halves) returns (o: Outcome)
    ensures IsOutcome(facts, halves, Keys(facts, halves), o)
  {
    hide IsOutcome, GroupOf, Keys;
    var groups, order := GroupFacts(facts, halves);
    var pairs: seq<Pair> := [];
    var ambiguous, unpaired := 0, 0;
    ghost var among: set<Key> := {};
    NothingYet(facts, halves);
    for n := 0 to |order|
      invariant forall k :: k in among <==> k in order[..n]
      invariant IsOutcome(facts, halves, among, Outcome(pairs, ambiguous, unpaired))
    {
      var group := groups[order[n]];
      OneMoreGroup(facts, halves, among, order[n], Outcome(pairs, ambiguous, unpaired));
      among := among + {order[n]};
      if group.devanagari == [] || group.latin == [] {
        unpaired := unpaired + 1;
        continue;
      }
      if |group.devanagari| != 1 || |group.latin| != 1 {
        ambiguous := ambiguous + 1;
        continue;
      }
      pairs := pairs + [Pair(group.devanagari[0].id, group.latin[0].id)];
    }
    assert among == Keys(facts, halves);
    o := Outcome(pairs, ambiguous, unpaired);
  }

  // ----- What that means -----

  lemma {:induction false} MembersAre(facts: seq<Fact>, halves: Halves, key: Key, half: Half)
    ensures forall f :: f in Members(facts, halves, key, half) <==> f in facts && Belongs(f, halves, key, half)
  {
    hide Belongs;
    if facts != [] {
      var n := |facts| - 1;
      MembersAre(facts[..n], halves, key, half);
      assert facts == facts[..n] + [facts[n]];
    }
  }

  ghost predicate DistinctIds(facts: seq<Fact>) {
    forall f, g :: f in facts && g in facts && f.id == g.id ==> f == g
  }

  lemma {:induction false} PairedIsOfKey(facts: seq<Fact>, halves: Halves, k: Key) returns (d: Fact, l: Fact)
    requires IsPaired(GroupOf(facts, halves, k))
    ensures d in facts && l in facts && PairOf(GroupOf(facts, halves, k)) == Pair(d.id, l.id)
    ensures Belongs(d, halves, k, Devanagari) && Belongs(l, halves, k, Latin)
  {
    MembersAre(facts, halves, k, Devanagari);
    MembersAre(facts, halves, k, Latin);
    d, l := Members(facts, halves, k, Devanagari)[0], Members(facts, halves, k, Latin)[0];
  }

  /** Two pairs that share a fact in either place are one pair, and no fact pairs with itself. */
  lemma {:induction false} PairingIsAMatching(facts: seq<Fact>, halves: Halves, o: Outcome, p: Pair, q: Pair)
    requires DistinctIds(facts) && IsOutcome(facts, halves, Keys(facts, halves), o)
    requires p in o.pairs && q in o.pairs
    ensures p.citationId != q.countedId
    ensures p.citationId == q.citationId || p.countedId == q.countedId ==> p == q
  {
    hide Keys, Members, AmbiguousAmong, UnpairedAmong, PairedAmong;
    var k :| k in Keys(facts, halves) && IsPaired(GroupOf(facts, halves, k)) && p == PairOf(GroupOf(facts, halves, k));
    var j :| j in Keys(facts, halves) && IsPaired(GroupOf(facts, halves, j)) && q == PairOf(GroupOf(facts, halves, j));
    hide GroupOf, IsPaired, PairOf;
    var d, l := PairedIsOfKey(facts, halves, k);
    var d', l' := PairedIsOfKey(facts, halves, j);
  }

  /** Which half of its document a fact stands in. */
  predicate StandsIn(f: Fact, halves: Halves, half: Half) {
    (f.documentId, f.pageNumber) in halves && halves[(f.documentId, f.pageNumber)] == half
  }

  /** The values stated on placed pages, each with its document. */
  ghost function Stated(facts: seq<Fact>, halves: Halves): set<(nat, string)> {
    set f | f in facts && f.value.Some? && (f.documentId, f.pageNumber) in halves :: (f.documentId, f.value.value)
  }

  ghost predicate StatedIn(facts: seq<Fact>, halves: Halves, half: Half, t: (nat, string)) {
    exists f :: f in facts && f.documentId == t.0 && f.value == Some(t.1) && StandsIn(f, halves, half)
  }

  /** Those of one half alone. */
  ghost function StatedOnce(facts: seq<Fact>, halves: Halves): set<(nat, string)> {
    set t | t in Stated(facts, halves) && !(StatedIn(facts, halves, Devanagari, t) && StatedIn(facts, halves, Latin, t))
  }

  lemma {:induction false} SameSize(keys: set<Key>, values: set<(nat, string)>)
    requires forall d: nat, v: string :: (d, v) in values <==> Key(d, v) in keys
    ensures |keys| == |values|
  {
    if keys == {} {
      assert forall t :: t in values ==> Key(t.0, t.1) in keys;
    } else {
      var k :| k in keys;
      SameSize(keys - {k}, values - {(k.documentId, k.value)});
    }
  }

  lemma {:induction false} KeysAreStated(facts: seq<Fact>, halves: Halves)
    ensures forall d: nat, v: string :: (d, v) in Stated(facts, halves) <==> Key(d, v) in Keys(facts, halves)
  {
    forall d: nat, v: string ensures (d, v) in Stated(facts, halves) <==> Key(d, v) in Keys(facts, halves) {
      if (d, v) in Stated(facts, halves) {
        var f :| f in facts && f.value.Some? && (f.documentId, f.pageNumber) in halves && (f.documentId, f.value.value) == (d, v);
        assert IsPlaced(f, halves) && KeyOf(f) == Key(d, v);
      }
      if Key(d, v) in Keys(facts, halves) {
        var f :| f in facts && IsPlaced(f, halves) && KeyOf(f) == Key(d, v);
        assert (f.documentId, f.value.value) == (d, v);
      }
    }
  }

  lemma {:induction false} EmptyHalf(facts: seq<Fact>, halves: Halves, d: nat, v: string, half: Half)
    ensures Members(facts, halves, Key(d, v), half) != [] <==> StatedIn(facts, halves, half, (d, v))
  {
    var members := Members(facts, halves, Key(d, v), half);
    MembersAre(facts, halves, Key(d, v), half);
    if members != [] {
      assert members[0] in members;
      assert Belongs(members[0], halves, Key(d, v), half);
    }
    if StatedIn(facts, halves, half, (d, v)) {
      var f :| f in facts && f.documentId == d && f.value == Some(v) && StandsIn(f, halves, half);
      assert Belongs(f, halves, Key(d, v), half);
      assert f in members;
    }
  }

  lemma {:induction false} UnpairedAreOfOneHalf(facts: seq<Fact>, halves: Halves)
    ensures |UnpairedAmong(facts, halves, Keys(facts, halves))| == |StatedOnce(facts, halves)|
  {
    KeysAreStated(facts, halves);
    hide Keys, Stated, Members, StatedIn;
    var keys, values := UnpairedAmong(facts, halves, Keys(facts, halves)), StatedOnce(facts, halves);
    forall d: nat, v: string ensures (d, v) in values <==> Key(d, v) in keys {
      EmptyHalf(facts, halves, d, v, Devanagari);
      EmptyHalf(facts, halves, d, v, Latin);
    }
    SameSize(keys, values);
  }

  lemma {:induction false} EveryKeyIsCounted(facts: seq<Fact>, halves: Halves, o: Outcome)
    requires IsOutcome(facts, halves, Keys(facts, halves), o)
    ensures |o.pairs| + o.ambiguous + o.unpaired == |Keys(facts, halves)|
  {
    var among := Keys(facts, halves);
    var p, a, u := PairedAmong(facts, halves, among), AmbiguousAmong(facts, halves, among),
      UnpairedAmong(facts, halves, among);
    hide GroupOf;
    assert among == p + a + u;
    assert p !! a && (p + a) !! u;
    assert |o.pairs| == |p|;
    hide PairedAmong, AmbiguousAmong, UnpairedAmong, IsUnpaired, IsPaired, IsAmbiguous, PairsExactly, Keys;
    ThreeParts(p, a, u);
  }

  /**
   * Every value of every document is counted once: paired, ambiguous or unpaired; and unpaired are
   * exactly those one half alone states.
   */
  lemma {:induction false} EveryValueIsCounted(facts: seq<Fact>, halves: Halves, o: Outcome)
    requires IsOutcome(facts, halves, Keys(facts, halves), o)
    ensures |o.pairs| + o.ambiguous + o.unpaired == |Stated(facts, halves)|
    ensures o.unpaired == |StatedOnce(facts, halves)|
  {
    EveryKeyIsCounted(facts, halves, o);
    UnpairedAreOfOneHalf(facts, halves);
    KeysAreStated(facts, halves);
    hide Stated, StatedOnce, Keys, PairsExactly, AmbiguousAmong, UnpairedAmong;
    SameSize(Keys(facts, halves), Stated(facts, halves));
  }

  lemma ThreeParts(p: set<Key>, a: set<Key>, u: set<Key>)
    requires p !! a && (p + a) !! u
    ensures |p + a + u| == |p| + |a| + |u|
  {
  }

  ghost predicate NoneTwice(facts: seq<Fact>) {
    forall a, b :: 0 <= a < b < |facts| ==> facts[a] != facts[b]
  }

  /** Only the `i`-th fact holds this value in this half. */
  ghost predicate IsAlone(facts: seq<Fact>, halves: Halves, k: Key, half: Half, i: nat)
    requires i < |facts|
  {
    Belongs(facts[i], halves, k, half)
    && forall n :: 0 <= n < |facts| && Belongs(facts[n], halves, k, half) ==> n == i
  }

  /** Two facts are paired exactly when, for some key, each is alone with it in its half. */
  lemma {:induction false} PairedByKey(facts: seq<Fact>, halves: Halves, o: Outcome, i: nat, j: nat)
    requires IsOutcome(facts, halves, Keys(facts, halves), o)
    requires DistinctIds(facts) && NoneTwice(facts)
    requires i < |facts| && j < |facts|
    ensures Pair(facts[i].id, facts[j].id) in o.pairs <==>
      exists k :: IsAlone(facts, halves, k, Devanagari, i) && IsAlone(facts, halves, k, Latin, j)
  {
    hide AmbiguousAmong, UnpairedAmong, PairedAmong, IsAlone, Keys, Members, Belongs, NoneTwice;
    var p := Pair(facts[i].id, facts[j].id);
    if p in o.pairs {
      var k :| k in Keys(facts, halves) && IsPaired(GroupOf(facts, halves, k)) && p == PairOf(GroupOf(facts, halves, k));
      var d, l := PairedIsOfKey(facts, halves, k);
      assert d == facts[i] && l == facts[j];
      AloneInGroup(facts, halves, k, Devanagari, i);
      AloneInGroup(facts, halves, k, Latin, j);
    }
    if k :| IsAlone(facts, halves, k, Devanagari, i) && IsAlone(facts, halves, k, Latin, j) {
      AloneIsKeyed(facts, halves, k, Devanagari, i);
      AloneIsKeyed(facts, halves, k, Latin, j);
      AloneInGroup(facts, halves, k, Devanagari, i);
      AloneInGroup(facts, halves, k, Latin, j);
      assert PairOf(GroupOf(facts, halves, k)) == p;
    }
  }

  /** A fact on a page whose half is known, stating the same in the same document. */
  predicate StatesAlike(f: Fact, g: Fact, halves: Halves) {
    && f.documentId == g.documentId && f.value == g.value && f.value.Some?
    && (f.documentId, f.pageNumber) in halves
  }

  /**
   * Two facts are paired exactly when they state one value in one document, the first on a
   * Devanagari page and the second on a Latin one, and no other fact states it there in either half.
   */
  lemma {:induction false} PairedExactlyWhenAlone(facts: seq<Fact>, halves: Halves, o: Outcome, i: nat, j: nat)
    requires IsOutcome(facts, halves, Keys(facts, halves), o)
    requires DistinctIds(facts) && NoneTwice(facts)
    requires i < |facts| && j < |facts|
    ensures Pair(facts[i].id, facts[j].id) in o.pairs <==>
      && StatesAlike(facts[i], facts[j], halves)
      && StandsIn(facts[i], halves, Devanagari) && StandsIn(facts[j], halves, Latin)
      && forall n :: 0 <= n < |facts| && StatesAlike(facts[n], facts[i], halves) ==> n == i || n == j
  {
    PairedByKey(facts, halves, o, i, j);
    hide IsOutcome, Keys, DistinctIds, NoneTwice;
    if k :| IsAlone(facts, halves, k, Devanagari, i) && IsAlone(facts, halves, k, Latin, j) {
      forall n | 0 <= n < |facts| && StatesAlike(facts[n], facts[i], halves) ensures n == i || n == j {
        assert Belongs(facts[n], halves, k, halves[(facts[n].documentId, facts[n].pageNumber)]);
      }
    }
    if StatesAlike(facts[i], facts[j], halves) && StandsIn(facts[i], halves, Devanagari) && StandsIn(facts[j], halves, Latin)
       && forall n :: 0 <= n < |facts| && StatesAlike(facts[n], facts[i], halves) ==> n == i || n == j {
      var k := Key(facts[i].documentId, facts[i].value.value);
      forall n, half | 0 <= n < |facts| && Belongs(facts[n], halves, k, half) ensures n == i || n == j {
        assert StatesAlike(facts[n], facts[i], halves);
      }
      assert IsAlone(facts, halves, k, Devanagari, i) && IsAlone(facts, halves, k, Latin, j);
    }
  }

  lemma AloneIsKeyed(facts: seq<Fact>, halves: Halves, k: Key, half: Half, i: nat)
    requires i < |facts| && IsAlone(facts, halves, k, half, i)
    ensures Belongs(facts[i], halves, k, half) && k in Keys(facts, halves)
  {
    assert facts[i] in facts && KeyOf(facts[i]) == k;
  }

  /** A group's half is one fact exactly when no other fact belongs there. */
  lemma {:induction false} AloneInGroup(facts: seq<Fact>, halves: Halves, k: Key, half: Half, i: nat)
    requires i < |facts| && Belongs(facts[i], halves, k, half)
    requires NoneTwice(facts)
    ensures |Members(facts, halves, k, half)| == 1 <==> IsAlone(facts, halves, k, half, i)
    ensures IsAlone(facts, halves, k, half, i) ==> Members(facts, halves, k, half) == [facts[i]]
  {
    hide Belongs;
    MembersAre(facts, halves, k, half);
    var members := Members(facts, halves, k, half);
    assert facts[i] in members;
    if |members| == 1 {
      forall n | 0 <= n < |facts| && Belongs(facts[n], halves, k, half) ensures n == i {
        assert facts[n] in members;
      }
    }
    if IsAlone(facts, halves, k, half, i) {
      MembersOfOne(facts, halves, k, half, i);
    }
  }

  lemma {:induction false} MembersOfOne(facts: seq<Fact>, halves: Halves, k: Key, half: Half, i: nat)
    requires forall n :: 0 <= n < |facts| && Belongs(facts[n], halves, k, half) ==> n == i
    ensures Members(facts, halves, k, half) ==
      if i < |facts| && Belongs(facts[i], halves, k, half) then [facts[i]] else []
  {
    hide Belongs;
    if facts != [] {
      MembersOfOne(facts[..|facts| - 1], halves, k, half, i);
    }
  }

  // ----- The order facts come in does not matter -----

  lemma {:induction false} MembersCount(facts: seq<Fact>, halves: Halves, key: Key, half: Half, f: Fact)
    ensures multiset(Members(facts, halves, key, half))[f] == if Belongs(f, halves, key, half) then multiset(facts)[f] else 0
  {
    hide Belongs;
    if facts != [] {
      var n := |facts| - 1;
      MembersCount(facts[..n], halves, key, half, f);
      assert facts == facts[..n] + [facts[n]];
    }
  }

  lemma {:induction false} MembersShuffled(facts: seq<Fact>, other: seq<Fact>, halves: Halves, key: Key, half: Half)
    requires multiset(facts) == multiset(other)
    ensures multiset(Members(facts, halves, key, half)) == multiset(Members(other, halves, key, half))
  {
    forall f: Fact
      ensures multiset(Members(facts, halves, key, half))[f] == multiset(Members(other, halves, key, half))[f]
    {
      MembersCount(facts, halves, key, half, f);
      MembersCount(other, halves, key, half, f);
    }
  }

  lemma SameSizeSameOnly(a: seq<Fact>, b: seq<Fact>)
    requires multiset(a) == multiset(b)
    ensures |a| == |b| && (|a| == 1 ==> a == b)
  {
    assert |multiset(a)| == |a| && |multiset(b)| == |b|;
    if |a| == 1 {
      assert a[0] in multiset(b);
    }
  }

  lemma {:induction false} GroupShuffled(facts: seq<Fact>, other: seq<Fact>, halves: Halves, key: Key)
    requires multiset(facts) == multiset(other)
    ensures var g, h := GroupOf(facts, halves, key), GroupOf(other, halves, key);
      && (IsUnpaired(g) <==> IsUnpaired(h)) && (IsPaired(g) <==> IsPaired(h)) && (IsAmbiguous(g) <==> IsAmbiguous(h))
      && (IsPaired(g) ==> PairOf(g) == PairOf(h))
  {
    MembersShuffled(facts, other, halves, key, Devanagari);
    MembersShuffled(facts, other, halves, key, Latin);
    SameSizeSameOnly(Members(facts, halves, key, Devanagari), Members(other, halves, key, Devanagari));
    SameSizeSameOnly(Members(facts, halves, key, Latin), Members(other, halves, key, Latin));
  }

  /** The same facts in any order give the same pairs and the same counts. */
  lemma {:induction false} OrderDoesNotMatter(facts: seq<Fact>, other: seq<Fact>, halves: Halves, o: Outcome, q: Outcome)
    requires multiset(facts) == multiset(other)
    requires IsOutcome(facts, halves, Keys(facts, halves), o)
    requires IsOutcome(other, halves, Keys(other, halves), q)
    ensures (forall p :: p in o.pairs <==> p in q.pairs) && |o.pairs| == |q.pairs|
    ensures o.ambiguous == q.ambiguous && o.unpaired == q.unpaired
  {
    assert forall f :: f in facts <==> f in multiset(facts);
    assert forall f :: f in other <==> f in multiset(other);
    assert Keys(facts, halves) == Keys(other, halves);
    var among := Keys(facts, halves);
    hide GroupOf, IsUnpaired, IsPaired, IsAmbiguous, PairOf, Keys;
    forall k: Key
      ensures var g, h := GroupOf(facts, halves, k), GroupOf(other, halves, k);
        && (IsUnpaired(g) <==> IsUnpaired(h)) && (IsPaired(g) <==> IsPaired(h)) && (IsAmbiguous(g) <==> IsAmbiguous(h))
        && (IsPaired(g) ==> PairOf(g) == PairOf(h))
    {
      GroupShuffled(facts, other, halves, k);
    }
    assert UnpairedAmong(facts, halves, among) == UnpairedAmong(other, halves, among);
    assert AmbiguousAmong(facts, halves, among) == AmbiguousAmong(other, halves, among);
    assert PairedAmong(facts, halves, among) == PairedAmong(other, halves, among);
  }
}
