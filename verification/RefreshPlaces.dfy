/** Where each source figure lands in the target, and that it is found there by its own key. */
module RefreshPlaces {
  import opened Wrappers
  import opened Figures
  import opened RefreshPlan
  import opened RefreshApply

  function Departed(text: seq<Fact>, target: seq<Fact>): set<int> {
    Gone(target, Retires(text, target, |target|))
  }

  function Survivors(text: seq<Fact>, target: seq<Fact>): seq<Fact> {
    Keep(target, Departed(text, target))
  }

  /** The report once retired and inserted, before the decisions are copied. */
  function Refilled(text: seq<Fact>, target: seq<Fact>, next: int): seq<Fact> {
    Unlink(Survivors(text, target), Departed(text, target))
    + NewRows(Inserts(text, target, |text|), next)
  }

  /** Where the figure of `text[i]` ends up. */
  function Place(text: seq<Fact>, target: seq<Fact>, i: nat): nat
    requires i < |text|
  {
    match Match(text, target, i)
    case Some(j) => |Keep(target[..j], Departed(text, target))|
    case None => |Survivors(text, target)| + |Inserts(text, target, i)|
  }

  // ----- Every source figure finds its key -----

  /** What the figures state once the first `n` source figures have been seen to. */
  function Grown(text: seq<Fact>, target: seq<Fact>, n: nat): seq<Identity>
    requires n <= |text|
  {
    Identities(Survivors(text, target)) + Identities(Inserts(text, target, n))
  }

  lemma GrownToRefilled(text: seq<Fact>, target: seq<Fact>, next: int)
    ensures Identities(Refilled(text, target, next)) == Grown(text, target, |text|)
  {
    hide Count, IndexOf, Keep;
  }

  lemma InsertsGrow(text: seq<Fact>, target: seq<Fact>, n: nat, m: nat)
    requires n <= m <= |text|
    ensures Inserts(text, target, n) <= Inserts(text, target, m)
    decreases m
  {
    hide Count, IndexOf, Keep;
    if n < m {
      InsertsGrow(text, target, n, m - 1);
    }
  }

  lemma GrownNone(text: seq<Fact>, target: seq<Fact>)
    ensures Grown(text, target, 0) == Identities(Survivors(text, target))
  {
    hide Count, IndexOf, Keep;
  }

  lemma GrownTake(text: seq<Fact>, target: seq<Fact>, n: nat)
    requires n <= |text|
    ensures Grown(text, target, n) <= Grown(text, target, |text|)
  {
    hide Count, IndexOf, Keep;
    InsertsGrow(text, target, n, |text|);
  }

  lemma GrownStep(text: seq<Fact>, target: seq<Fact>, n: nat, who: Identity)
    requires n < |text|
    ensures Count(Grown(text, target, n + 1), who)
         == Count(Grown(text, target, n), who)
          + if Match(text, target, n).None? && text[n].identity == who then 1 else 0
  {
    hide Count, IndexOf, Keep;
    if Match(text, target, n).None? {
      assert Grown(text, target, n + 1) == Grown(text, target, n) + [text[n].identity];
      CountPush(Grown(text, target, n), text[n].identity, who);
    } else {
      assert Inserts(text, target, n + 1) == Inserts(text, target, n);
    }
  }

  /** A figure is inserted when the target's group is no larger than its ordinal. */
  lemma MatchMeans(text: seq<Fact>, target: seq<Fact>, n: nat)
    requires n < |text|
    ensures Match(text, target, n).None?
       <==> Count(Identities(target), text[n].identity) <= Count(Identities(text)[..n], text[n].identity)
  {
    hide Count, IndexOf, Keep;
  }

  /** The group of an identity, as the inserts go in one by one. */
  lemma {:induction false} InsertCount(text: seq<Fact>, target: seq<Fact>, next: int, n: nat, who: Identity)
    requires Storable(target, next) && n <= |text|
    ensures
      var asked := Count(Identities(text)[..n], who);
      Count(Grown(text, target, n), who)
      == if asked > Count(Identities(target), who) then asked else Count(Identities(Survivors(text, target)), who)
  {
    hide Count, IndexOf, Keep, Match, Grown, Survivors;
    if n == 0 {
      GrownNone(text, target);
      assert Identities(text)[..0] == [];
      CountNone(who);
    } else {
      InsertCount(text, target, next, n - 1, who);
      GrownStep(text, target, n - 1, who);
      MatchMeans(text, target, n - 1);
      CountTake(Identities(text), n - 1, who);
      SurvivorCount(text, target, next, who);
      AskedGrows(text, n, who);
    }
  }

  lemma AskedGrows(text: seq<Fact>, n: nat, who: Identity)
    requires n <= |text|
    ensures Count(Identities(text)[..n], who) <= Count(Identities(text), who)
  {
    hide Count, IndexOf, Keep;
    CountMonotone(Identities(text), n, |text|, who);
    assert Identities(text)[..|text|] == Identities(text);
  }

  lemma SurvivorCount(text: seq<Fact>, target: seq<Fact>, next: int, who: Identity)
    requires Storable(target, next)
    ensures
      var before := Count(Identities(target), who);
      var after := Count(Identities(Survivors(text, target)), who);
      var wanted := Count(Identities(text), who);
      if before <= wanted then after == before else wanted <= after
  {
    hide Count, IndexOf, Keep;
    KeepCount(text, target, next, |target|, who);
    assert target[..|target|] == target;
  }

  lemma {:induction false} PlaceOfMatched(text: seq<Fact>, target: seq<Fact>, next: int, i: nat)
    requires Storable(target, next) && i < |text| && Match(text, target, i).Some?
    ensures var j := Match(text, target, i).value;
      var p := Place(text, target, i);
      var kept := Survivors(text, target);
      && p < |kept| && kept[p] == target[j]
      && KeyAt(Identities(kept), p) == KeyAt(Identities(text), i)
  {
    hide Count, IndexOf, Keep;
    var gone := Departed(text, target);
    var j := Match(text, target, i).value;
    var p := Place(text, target, i);
    KeyIsHeld(Identities(text), i);
    GoneIsRetired(text, target, next, j);
    KeepPlaces(target, gone, j);
    KeptOrdinal(text, target, next, j);
  }

  /** A row whose ordinal the source uses keeps that ordinal among the survivors. */
  lemma KeptOrdinal(text: seq<Fact>, target: seq<Fact>, next: int, j: nat)
    requires Storable(target, next) && j < |target|
    requires !Unmatched(text, target, j) && target[j].id !in Departed(text, target)
    ensures var kept := Survivors(text, target);
      var p := |Keep(target[..j], Departed(text, target))|;
      p < |kept| && KeyAt(Identities(kept), p) == KeyAt(Identities(target), j)
  {
    hide Count, IndexOf, Keep;
    var gone := Departed(text, target);
    var kept := Survivors(text, target);
    var p := |Keep(target[..j], gone)|;
    KeepPlaces(target, gone, j);
    KeepCount(text, target, next, j, target[j].identity);
    IdentitiesTake(target, j);
    IdentitiesTake(kept, p);
    assert kept[..p] == Keep(target[..j], gone);
  }

  lemma InsertsAt(text: seq<Fact>, target: seq<Fact>, i: nat)
    requires i < |text| && Match(text, target, i).None?
    ensures Inserts(text, target, i) + [text[i]] <= Inserts(text, target, |text|)
  {
    hide Count, IndexOf, Keep, Match;
    InsertsGrow(text, target, i + 1, |text|);
  }

  lemma {:induction false} PlaceOfInserted(text: seq<Fact>, target: seq<Fact>, next: int, i: nat)
    requires Storable(target, next) && i < |text| && Match(text, target, i).None?
    ensures var facts := Refilled(text, target, next);
      var p := Place(text, target, i);
      && |Survivors(text, target)| <= p < |facts|
      && facts[p] == NewRow(text[i], next + |Inserts(text, target, i)|)
  {
    hide Count, IndexOf, Keep, Inserts, Match, Survivors;
    InsertsAt(text, target, i);
    var all := Inserts(text, target, |text|);
    assert all[|Inserts(text, target, i)|] == text[i];
  }

  lemma {:induction false} OrdinalOfInserted(text: seq<Fact>, target: seq<Fact>, next: int, i: nat)
    requires Storable(target, next) && i < |text| && Match(text, target, i).None?
    ensures Count(Grown(text, target, i), text[i].identity) == Count(Identities(text)[..i], text[i].identity)
  {
    hide Count, IndexOf, Keep;
    var who := text[i].identity;
    InsertCount(text, target, next, i, who);
    SurvivorCount(text, target, next, who);
    KeyIsHeld(Identities(text), i);
  }

  lemma KeyAtPrefix(a: seq<Identity>, b: seq<Identity>, p: nat)
    requires p < |a| && a <= b
    ensures KeyAt(b, p) == KeyAt(a, p)
  {
    hide Count, IndexOf, Keep;
    assert b[..p] == a[..p];
  }

  lemma {:induction false} PlaceHasKey(text: seq<Fact>, target: seq<Fact>, next: int, i: nat)
    requires Storable(target, next) && i < |text|
    ensures var ids := Grown(text, target, |text|);
      var p := Place(text, target, i);
      p < |ids| && KeyAt(ids, p) == KeyAt(Identities(text), i)
  {
    hide Count, IndexOf, Keep;
    var p := Place(text, target, i);
    if Match(text, target, i).Some? {
      PlaceOfMatched(text, target, next, i);
      KeyAtPrefix(Identities(Survivors(text, target)), Grown(text, target, |text|), p);
    } else {
      OrdinalOfInserted(text, target, next, i);
      var grown := Grown(text, target, i + 1);
      assert grown == Grown(text, target, i) + [text[i].identity];
      assert grown[..p] == Grown(text, target, i);
      GrownTake(text, target, i + 1);
      KeyAtPrefix(grown, Grown(text, target, |text|), p);
    }
  }

  /** Every text figure's key is found in the target once the figures are in place. */
  lemma {:induction false} EveryKeyIsFound(text: seq<Fact>, target: seq<Fact>, next: int, i: nat)
    requires Storable(target, next) && i < |text|
    ensures var ids := Identities(Refilled(text, target, next));
      var p := Place(text, target, i);
      && p < |ids|
      && KeyAt(ids, p) == KeyAt(Identities(text), i)
      && HasKey(ids, KeyAt(Identities(text), i))
      && IndexOf(ids, KeyAt(Identities(text), i)) == p
  {
    hide Count, IndexOf, Keep;
    GrownToRefilled(text, target, next);
    PlaceHasKey(text, target, next, i);
    KeyIsHeld(Grown(text, target, |text|), Place(text, target, i));
  }
}
