/** What each row ends up carrying and pointing at, and that no key lookup fails. */
module RefreshLinks {
  import opened Wrappers
  import opened Figures
  import opened RefreshPlan
  import opened RefreshApply
  import opened RefreshPlaces
  import opened RefreshRows

  /** The report with its figures in place and its decisions copied: what the keys are computed on. */
  function Base(text: seq<Fact>, target: seq<Fact>, next: int): seq<Fact> {
    UpdateRows(Refilled(text, target, next), Updates(text, target, |text|))
  }

  lemma BaseKeepsRows(text: seq<Fact>, target: seq<Fact>, next: int)
    ensures SameRows(Base(text, target, next), Refilled(text, target, next))
    ensures Identities(Base(text, target, next)) == Identities(Refilled(text, target, next))
  {
    hide Count, IndexOf, Keep, Gone, Inserts;
    assert Identities(Base(text, target, next)) == Identities(Refilled(text, target, next));
  }

  // ----- No key lookup fails -----

  lemma {:induction false} IdForPlace(text: seq<Fact>, target: seq<Fact>, next: int, i: nat)
    requires Storable(target, next) && i < |text|
    ensures var base := Base(text, target, next);
      var p := Place(text, target, i);
      && p < |base|
      && IdFor(base, KeyAt(Identities(text), i)) == Some(base[p].id)
      && KeyOfId(base, base[p].id) == Some(KeyAt(Identities(text), i))
  {
    hide Count, IndexOf, Keep, Gone, Inserts;
    var facts := Refilled(text, target, next);
    BaseKeepsRows(text, target, next);
    EveryKeyIsFound(text, target, next, i);
    PlaceFoundByKey(text, target, next, i);
    SameKeys(Base(text, target, next), facts, facts[Place(text, target, i)].id);
  }

  lemma KeyOfIdIsKnown(text: seq<Fact>, target: seq<Fact>, next: int, id: int)
    requires Storable(target, next) && KeyOfId(text, id).Some?
    ensures var wanted := KeyOfId(text, id);
      var base := Base(text, target, next);
      var to := WrittenAs(base, wanted);
      to.Some? && KeyOfId(base, to.value) == wanted
  {
    hide Count, IndexOf, Keep, Gone, Inserts;
    IdForPlace(text, target, next, Position(text, id).value);
  }

  /** Both ends of a source figure's link are found, and read back as the keys they were found by. */
  lemma WantedIsKnown(text: seq<Fact>, target: seq<Fact>, next: int, i: nat)
    requires Storable(target, next) && i < |text|
    ensures var base := Base(text, target, next);
      var wanted := LinkOf(text[i], text);
      && KnowsLink(base, Link(KeyAt(Identities(text), i), wanted))
      && (wanted.Some? ==> WrittenAs(base, wanted).Some? && KeyOfId(base, WrittenAs(base, wanted).value) == wanted)
  {
    hide Count, IndexOf, Keep, Gone, Inserts;
    IdForPlace(text, target, next, i);
    if LinkOf(text[i], text).Some? {
      KeyOfIdIsKnown(text, target, next, text[i].sameFigureAs.value);
    }
  }

  lemma {:induction false} LinksAreKnown(text: seq<Fact>, target: seq<Fact>, next: int, n: nat)
    requires Storable(target, next) && n <= |text|
    ensures KnowsLinks(Base(text, target, next), Links(text, target, n))
  {
    hide Count, IndexOf, Keep, Gone, Inserts, Base, IdFor, KnowsLink, LinkOf, Match, LinkHeld, WrittenAs;
    if n > 0 {
      LinksAreKnown(text, target, next, n - 1);
      WantedIsKnown(text, target, next, n - 1);
    }
  }

  lemma {:induction false} HistoryIsKnown(text: seq<Fact>, target: FactSide, next: int, history: seq<History>)
    requires Storable(target.facts, next)
    ensures KnowsHistory(Base(text, target.facts, next), Missing(text, target, history))
  {
    hide Count, IndexOf, Keep, Gone, Inserts;
    if history != [] {
      var h := history[|history| - 1];
      HistoryIsKnown(text, target, next, history[..|history| - 1]);
      if KeyOfId(text, h.factId).Some? {
        KeyOfIdIsKnown(text, target.facts, next, h.factId);
      }
    }
  }

  // ----- The decision each figure ends up with -----

  lemma {:induction false} PlaceCarries(text: seq<Fact>, target: seq<Fact>, next: int, i: nat)
    requires Storable(target, next) && i < |text|
    ensures var base := Base(text, target, next);
      Place(text, target, i) < |base| && SameCarried(text[i].carried, base[Place(text, target, i)].carried)
  {
    hide Count, IndexOf, Keep, Gone, Inserts;
    var row := RowAtPlace(text, target, next, i);
    RowCarries(row, text, target, next, i);
  }

  lemma RowCarries(row: Fact, text: seq<Fact>, target: seq<Fact>, next: int, i: nat)
    requires Storable(target, next) && i < |text|
    requires match Match(text, target, i)
      case None => row.id >= next && row.carried == text[i].carried
      case Some(j) => row.id == target[j].id && row.carried == target[j].carried
    ensures SameCarried(text[i].carried, RowUpdated(row, Updates(text, target, |text|)).carried)
  {
    hide Count, IndexOf, Keep, Gone, Inserts;
    if Match(text, target, i).Some? {
      MatchedRowCarries(row, text, target, |text|, i);
    } else {
      NewRowStays(row, text, target, next);
    }
  }

  lemma NewRowStays(row: Fact, text: seq<Fact>, target: seq<Fact>, next: int)
    requires Storable(target, next) && row.id >= next
    ensures RowUpdated(row, Updates(text, target, |text|)) == row
  {
    hide Count, IndexOf, Keep, Gone, Inserts;
    forall k | 0 <= k < |text| ensures !MatchedTo(text, target, k, row.id) {
      MatchedIsOld(text, target, next, k);
    }
    UnmatchedRowStays(row, text, target, |text|);
  }

  lemma RowAtPlace(text: seq<Fact>, target: seq<Fact>, next: int, i: nat) returns (row: Fact)
    requires Storable(target, next) && i < |text|
    ensures var facts := Refilled(text, target, next);
      var p := Place(text, target, i);
      p < |facts| && row == facts[p] && Base(text, target, next)[p] == RowUpdated(row, Updates(text, target, |text|))
    ensures match Match(text, target, i)
      case None => row.id >= next && row.carried == text[i].carried && row.sameFigureAs == None
      case Some(j) => row == UnlinkOne(target[j], Departed(text, target))
  {
    hide Count, IndexOf, Keep, Gone, Inserts;
    EveryKeyIsFound(text, target, next, i);
    row := Refilled(text, target, next)[Place(text, target, i)];
    if Match(text, target, i).Some? {
      PlaceOfMatched(text, target, next, i);
    } else {
      PlaceOfInserted(text, target, next, i);
    }
  }

  lemma MatchedIsOld(text: seq<Fact>, target: seq<Fact>, next: int, k: nat)
    requires Storable(target, next) && k < |text|
    ensures Match(text, target, k).Some? ==> target[Match(text, target, k).value].id < next
  {
    hide Count, IndexOf, Keep, Gone, Inserts;
    if Match(text, target, k).Some? {
      assert target[Match(text, target, k).value] in target;
    }
  }

  lemma {:induction false} StrandedStaysDecided(text: seq<Fact>, target: seq<Fact>, next: int, q: nat)
    requires Storable(target, next) && q < |Base(text, target, next)|
    requires !HasKey(Identities(text), KeyAt(Identities(Base(text, target, next)), q))
    ensures Decided(Base(text, target, next)[q])
  {
    hide Count, IndexOf, Keep, Gone, Inserts;
    BaseKeepsRows(text, target, next);
    var j := StrandedRow(text, target, next, q);
    StrandedRowStays(Refilled(text, target, next)[q], text, target, j);
  }

  lemma StrandedRowStays(row: Fact, text: seq<Fact>, target: seq<Fact>, j: nat)
    requires InIdOrder(target) && j < |target| && Unmatched(text, target, j) && row.id == target[j].id
    ensures RowUpdated(row, Updates(text, target, |text|)) == row
  {
    hide Count, IndexOf, Keep, Gone, Inserts;
    forall k | 0 <= k < |text| ensures !MatchedTo(text, target, k, row.id) {
      if MatchedTo(text, target, k, row.id) {
        KeyIsHeld(Identities(text), k);
      }
    }
    UnmatchedRowStays(row, text, target, |text|);
  }

  // ----- The link each figure ends up with -----

  lemma {:induction false} PlacesDiffer(text: seq<Fact>, target: seq<Fact>, next: int, i: nat, k: nat)
    requires Storable(target, next) && i < |text| && k < |text| && i != k
    ensures var base := Base(text, target, next);
      Place(text, target, i) < |base|
      && IdFor(base, KeyAt(Identities(text), k)) != Some(base[Place(text, target, i)].id)
  {
    hide Count, IndexOf, Keep, Gone, Inserts;
    IdForPlace(text, target, next, i);
    IdForPlace(text, target, next, k);
    if i < k {
      KeysAreDistinct(Identities(text), i, k);
    } else {
      KeysAreDistinct(Identities(text), k, i);
    }
  }

  lemma RowLinkedStep(row: Fact, base: seq<Fact>, text: seq<Fact>, target: seq<Fact>, n: nat)
    requires n < |text|
    ensures var r := RowLinked(row, base, Links(text, target, n));
      var l := LinkFor(text, target, n);
      RowLinked(row, base, Links(text, target, n + 1))
      == if l == [] then r else LinkRow(r, base, Link(KeyAt(Identities(text), n), LinkOf(text[n], text)))
  {
    hide Count, IndexOf, Keep, Gone, Inserts;
    var before := Links(text, target, n);
    var l := LinkFor(text, target, n);
    if l == [] {
      assert before + l == before;
    } else {
      assert (before + l)[..|before|] == before;
    }
  }

  /** What writing source figure `k`'s link does to the row of figure `i`. */
  lemma LinkWritten(row: Fact, text: seq<Fact>, target: seq<Fact>, next: int, k: nat, i: nat)
    requires Storable(target, next) && i < |text| && k < |text|
    requires Place(text, target, i) < |Base(text, target, next)|
    requires row.id == Base(text, target, next)[Place(text, target, i)].id
    ensures var base := Base(text, target, next);
      var wanted := LinkOf(text[k], text);
      LinkRow(row, base, Link(KeyAt(Identities(text), k), wanted)).sameFigureAs
      == if k == i then WrittenAs(base, wanted) else row.sameFigureAs
  {
    hide Count, IndexOf, Keep, Gone, Inserts;
    IdForPlace(text, target, next, i);
    if k != i {
      PlacesDiffer(text, target, next, i, k);
    }
  }

  /** After the first `n` source figures' links, the row of figure `i` holds its own, and no other. */
  lemma {:induction false} PlaceLinked(row: Fact, text: seq<Fact>, target: seq<Fact>, next: int, n: nat, i: nat)
    requires Storable(target, next) && i < |text| && n <= |text|
    requires Place(text, target, i) < |Base(text, target, next)|
    requires row.id == Base(text, target, next)[Place(text, target, i)].id
    ensures var base := Base(text, target, next);
      RowLinked(row, base, Links(text, target, n)).sameFigureAs
      == if i < n && LinkFor(text, target, i) != [] then WrittenAs(base, LinkOf(text[i], text)) else row.sameFigureAs
  {
    hide Count, IndexOf, Keep, Gone, Inserts, LinkFor, LinkOf, Place, Base, LinkRow, WrittenAs, IdFor;
    if n > 0 {
      var base := Base(text, target, next);
      PlaceLinked(row, text, target, next, n - 1, i);
      RowLinkedStep(row, base, text, target, n - 1);
      LinkWritten(RowLinked(row, base, Links(text, target, n - 1)), text, target, next, n - 1, i);
    }
  }

  /** A link already as wanted is not disturbed by the retirement around it. */
  lemma {:induction false} SettledLinkStands(text: seq<Fact>, target: seq<Fact>, next: int, i: nat)
    requires Storable(target, next) && i < |text| && LinkFor(text, target, i) == []
    requires Place(text, target, i) < |Base(text, target, next)|
    ensures var base := Base(text, target, next);
      LinkOf(base[Place(text, target, i)], base) == LinkOf(text[i], text)
  {
    var base := Base(text, target, next);
    var row := RowAtPlace(text, target, next, i);
    hide RowUpdated, Base, Refilled, Place, Departed, Updates, KeyOfId, KeyAt, IndexOf, HasKey, InIdOrder;
    var m := Match(text, target, i);
    if m.Some? {
      var t := target[m.value];
      assert t in target;
      if t.sameFigureAs.Some? {
        var id := t.sameFigureAs.value;
        assert KeyOfId(target, id) == LinkOf(text[i], text);
        LinkWantedIsHeld(text, i);
        LinkTargetStands(text, target, next, id, LinkOf(text[i], text));
        BaseKeepsKeys(text, target, next, id);
      }
    }
  }

  lemma LinkWantedIsHeld(text: seq<Fact>, i: nat)
    requires i < |text|
    ensures var wanted := LinkOf(text[i], text);
      wanted.Some? ==> exists k :: 0 <= k < |text| && wanted == Some(KeyAt(Identities(text), k))
  {
    hide KeyAt;
  }

  lemma BaseKeepsKeys(text: seq<Fact>, target: seq<Fact>, next: int, id: int)
    ensures KeyOfId(Base(text, target, next), id) == KeyOfId(Refilled(text, target, next), id)
  {
    hide Count, IndexOf, Keep, Gone, Inserts;
    BaseKeepsRows(text, target, next);
    SameKeys(Base(text, target, next), Refilled(text, target, next), id);
  }

  /** A row the source also links to is still there, under the same key; a foreign one stays foreign. */
  lemma {:induction false} LinkTargetStands(text: seq<Fact>, target: seq<Fact>, next: int, id: int, wanted: Option<Key>)
    requires Storable(target, next) && id < next
    requires KeyOfId(target, id) == wanted
    requires wanted.Some? ==> exists k :: 0 <= k < |text| && wanted == Some(KeyAt(Identities(text), k))
    ensures id !in Departed(text, target)
    ensures KeyOfId(Refilled(text, target, next), id) == wanted
  {
    hide Count, IndexOf, Keep, Inserts;
    if wanted.None? {
      ForeignStaysForeign(text, target, next, id);
      assert forall f :: f in target ==> f.id != id;
    } else {
      var j := Position(target, id).value;
      var k :| 0 <= k < |text| && wanted == Some(KeyAt(Identities(text), k));
      KeyIsHeld(Identities(text), k);
      KeyIsHeld(Identities(target), j);
      GoneIsRetired(text, target, next, j);
      MatchedKeepsKey(text, target, next, k);
    }
  }
}
