/** How the single statements of a write compose into the steps of `RefreshApply`. */
module RefreshSteps {
  import opened Wrappers
  import opened Figures
  import opened RefreshPlan
  import opened RefreshApply
  import opened RefreshRows
  import opened RefreshStorable

  /** Deleting from one report: its rows and history go, links to them go everywhere. */
  function DeleteIn(reports: map<int, FactSide>, doc: int, gone: set<int>): map<int, FactSide> {
    map d | d in reports ::
      if d == doc then
        FactSide(Unlink(Keep(reports[d].facts, gone), gone), KeepHistory(reports[d].history, gone))
      else reports[d].(facts := Unlink(reports[d].facts, gone))
  }

  lemma UnlinkTwice(facts: seq<Fact>, a: set<int>, b: set<int>)
    ensures Unlink(Unlink(facts, a), b) == Unlink(facts, a + b)
  {
    hide Count;
  }

  lemma KeepPush(facts: seq<Fact>, f: Fact, gone: set<int>)
    ensures Keep(facts + [f], gone) == if f.id in gone then Keep(facts, gone) else Keep(facts, gone) + [f]
  {
    hide Count;
    assert (facts + [f])[..|facts|] == facts;
  }

  lemma UnlinkPush(facts: seq<Fact>, f: Fact, gone: set<int>)
    ensures Unlink(facts + [f], gone) == Unlink(facts, gone) + [UnlinkOne(f, gone)]
  {
    hide Count;
  }

  lemma {:induction false} KeepTwice(facts: seq<Fact>, a: set<int>, b: set<int>)
    ensures Keep(Unlink(Keep(facts, a), a), b) == Unlink(Keep(facts, a + b), a)
  {
    hide Count, UnlinkOne;
    if facts != [] {
      var front := facts[..|facts| - 1];
      assert facts == front + [facts[|facts| - 1]];
      KeepTwice(front, a, b);
      KeepTwiceNext(front, facts[|facts| - 1], a, b);
    }
  }

  lemma KeepTwiceNext(front: seq<Fact>, last: Fact, a: set<int>, b: set<int>)
    requires Keep(Unlink(Keep(front, a), a), b) == Unlink(Keep(front, a + b), a)
    ensures Keep(Unlink(Keep(front + [last], a), a), b) == Unlink(Keep(front + [last], a + b), a)
  {
    hide Count, Keep, Unlink, UnlinkOne;
    KeepPush(front, last, a);
    KeepPush(front, last, a + b);
    if last.id !in a {
      UnlinkPush(Keep(front, a), last, a);
      KeepPush(Unlink(Keep(front, a), a), UnlinkOne(last, a), b);
      UnlinkPush(Keep(front, a + b), last, a);
    }
  }

  lemma {:induction false} KeepHistoryTwice(history: seq<History>, a: set<int>, b: set<int>)
    ensures KeepHistory(KeepHistory(history, a), b) == KeepHistory(history, a + b)
  {
    hide Count;
    if history != [] {
      var front, last := history[..|history| - 1], history[|history| - 1];
      KeepHistoryTwice(front, a, b);
      var kept := KeepHistory(front, a);
      assert KeepHistory(history, a) == if last.factId in a then kept else kept + [last];
      assert (kept + [last])[..|kept|] == kept;
    }
  }

  lemma {:induction false} KeepNone(facts: seq<Fact>)
    ensures Keep(facts, {}) == facts
  {
    hide Count;
    if facts != [] {
      KeepNone(facts[..|facts| - 1]);
    }
  }

  lemma {:induction false} KeepHistoryNone(history: seq<History>)
    ensures KeepHistory(history, {}) == history
  {
    hide Count;
    if history != [] {
      KeepHistoryNone(history[..|history| - 1]);
    }
  }

  lemma DeleteNone(reports: map<int, FactSide>, doc: int)
    ensures DeleteIn(reports, doc, {}) == reports
  {
    hide Count;
    forall d | d in reports ensures DeleteIn(reports, doc, {})[d] == reports[d] {
      KeepNone(reports[d].facts);
      KeepHistoryNone(reports[d].history);
      assert Unlink(reports[d].facts, {}) == reports[d].facts;
    }
  }

  lemma DeleteTwice(reports: map<int, FactSide>, doc: int, a: set<int>, b: set<int>)
    ensures DeleteIn(DeleteIn(reports, doc, a), doc, b) == DeleteIn(reports, doc, a + b)
  {
    hide Count;
    forall d | d in reports
      ensures DeleteIn(DeleteIn(reports, doc, a), doc, b)[d] == DeleteIn(reports, doc, a + b)[d]
    {
      KeepTwice(reports[d].facts, a, b);
      KeepHistoryTwice(reports[d].history, a, b);
      UnlinkTwice(Keep(reports[d].facts, a + b), a, b);
      UnlinkTwice(reports[d].facts, a, b);
    }
  }

  /** One more id of a retirement deletes what it would have deleted from the start. */
  lemma {:induction false} GoneNext(facts: seq<Fact>, retire: seq<int>, k: nat)
    requires k < |retire|
    ensures var a := Gone(facts, retire[..k]);
      Gone(facts, retire[..k + 1]) == a + Gone(Unlink(Keep(facts, a), a), [retire[k]])
  {
    hide Count, Keep;
    var a := Gone(facts, retire[..k]);
    var now := Unlink(Keep(facts, a), a);
    KeepMembers(facts, a);
    assert retire[..k + 1] == retire[..k] + [retire[k]];
    forall id | id in Gone(facts, retire[..k + 1]) ensures id in a + Gone(now, [retire[k]]) {
      var f :| f in facts && f.id == id && id in retire[..k + 1] && Unverified(f);
      if id !in a {
        var i :| 0 <= i < |Keep(facts, a)| && Keep(facts, a)[i] == f;
        assert now[i] in now;
      }
    }
    forall id | id in Gone(now, [retire[k]]) ensures id in Gone(facts, retire[..k + 1]) {
      var g :| g in now && g.id == id && Unverified(g);
      var i :| 0 <= i < |now| && now[i] == g;
      assert Keep(facts, a)[i] in Keep(facts, a);
    }
  }

  /** The ids of a table by key, as the write looks them up. */
  ghost predicate IsIdIndex(idOf: map<Key, int>, base: seq<Fact>) {
    forall key :: IdFor(base, key) == if key in idOf then Some(idOf[key]) else None
  }

  ghost predicate IsIdIndexUpTo(idOf: map<Key, int>, base: seq<Fact>, n: nat)
    requires n <= |base|
  {
    && (forall i :: 0 <= i < n ==>
          KeyAt(Identities(base), i) in idOf && idOf[KeyAt(Identities(base), i)] == base[i].id)
    && (forall key :: key in idOf ==> HasKey(Identities(base), key))
  }

  lemma IdIndexNext(idOf: map<Key, int>, base: seq<Fact>, n: nat)
    requires n < |base| && IsIdIndexUpTo(idOf, base, n)
    ensures IsIdIndexUpTo(idOf[KeyAt(Identities(base), n) := base[n].id], base, n + 1)
  {
    hide Count;
    var ids := Identities(base);
    forall j | 0 <= j < n ensures KeyAt(ids, j) != KeyAt(ids, n) {
      KeysAreDistinct(ids, j, n);
    }
    KeyIsHeld(ids, n);
  }

  lemma IdIndexDone(idOf: map<Key, int>, base: seq<Fact>)
    requires IsIdIndexUpTo(idOf, base, |base|)
    ensures IsIdIndex(idOf, base)
  {
    hide Count;
    forall key ensures IdFor(base, key) == if key in idOf then Some(idOf[key]) else None {
      if HasKey(Identities(base), key) {
        var i := IndexOf(Identities(base), key);
        assert KeyAt(Identities(base), i) == key;
      }
    }
  }

  lemma UpdateRowsNext(facts: seq<Fact>, update: seq<Update>, k: nat)
    requires k < |update|
    ensures UpdateRows(UpdateRows(facts, update[..k]), [update[k]]) == UpdateRows(facts, update[..k + 1])
  {
    hide Count;
    assert update[..k + 1][..k] == update[..k];
    forall i | 0 <= i < |facts|
      ensures RowUpdated(RowUpdated(facts[i], update[..k]), [update[k]]) == RowUpdated(facts[i], update[..k + 1])
    {
      assert [update[k]][..0] == [];
    }
  }

  lemma LinkNone(facts: seq<Fact>, base: seq<Fact>)
    ensures LinkRows(facts, base, []) == facts
  {
    hide Count;
  }

  lemma LinkRowsNext(facts: seq<Fact>, base: seq<Fact>, links: seq<Link>, k: nat)
    requires k < |links|
    ensures LinkRows(LinkRows(facts, base, links[..k]), base, [links[k]]) == LinkRows(facts, base, links[..k + 1])
  {
    hide Count;
    assert links[..k + 1][..k] == links[..k];
    forall i | 0 <= i < |facts|
      ensures RowLinked(RowLinked(facts[i], base, links[..k]), base, [links[k]]) == RowLinked(facts[i], base, links[..k + 1])
    {
      assert [links[k]][..0] == [];
    }
  }
}
