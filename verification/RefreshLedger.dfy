/**
 * The target database, written statement by statement, and the whole refresh.
 *
 * `Refresh` makes every plan, writes those that are not empty, and makes every plan again; one
 * that is not empty then is a refusal, proved to happen only if the source has changed.
 */
module RefreshLedger {
  import opened Wrappers
  import opened Figures
  import opened RefreshPlan
  import opened RefreshPlanner
  import opened RefreshApply
  import opened RefreshSteps
  import opened RefreshRun

  class TargetLedger {
    var reports: map<int, FactSide>
    var nextId: int

    constructor (reports: map<int, FactSide>, nextId: int)
      ensures this.reports == reports && this.nextId == nextId
    {
      this.reports, this.nextId := reports, nextId;
    }

    /** DELETE of one figure, where it is still undecided. */
    method DeleteUndecided(doc: int, id: int)
      requires doc in reports
      modifies this`reports
      ensures reports == DeleteIn(old(reports), doc, Gone(old(reports)[doc].facts, [id]))
    {
      var gone := Gone(reports[doc].facts, [id]);
      reports := map d | d in reports :: DeleteIn(reports, doc, gone)[d];
    }

    /** INSERT of one figure, under the sequence's next id. */
    method InsertFigure(doc: int, fact: Fact)
      requires doc in reports
      modifies this
      ensures nextId == old(nextId) + 1
      ensures var side := old(reports)[doc];
        reports == old(reports)[doc := side.(facts := side.facts + [NewRow(fact, old(nextId))])]
    {
      var side := reports[doc];
      reports := reports[doc := side.(facts := side.facts + [NewRow(fact, nextId)])];
      nextId := nextId + 1;
    }

    /** UPDATE of one figure's carried columns. */
    method UpdateFigure(doc: int, u: Update)
      requires doc in reports
      modifies this`reports
      ensures var side := old(reports)[doc];
        reports == old(reports)[doc := side.(facts := UpdateRows(side.facts, [u]))]
    {
      var side := reports[doc];
      reports := reports[doc := side.(facts := UpdateRows(side.facts, [u]))];
    }

    /** SELECT of one report's figures, in whatever order the database returns them. */
    method FetchFigures(doc: int) returns (rows: seq<Fact>)
      requires doc in reports && InIdOrder(reports[doc].facts)
      ensures DistinctIds(rows) && forall f :: f in rows <==> f in reports[doc].facts
    {
      rows := reports[doc].facts;
    }

    /** INSERT of one superseded decision under a figure. */
    method InsertHistory(doc: int, id: int, row: History)
      requires doc in reports
      modifies this`reports
      ensures var side := old(reports)[doc];
        reports == old(reports)[doc := side.(history := side.history + [row.(factId := id)])]
    {
      var side := reports[doc];
      reports := reports[doc := side.(history := side.history + [row.(factId := id)])];
    }

    /** UPDATE of one figure's link. */
    method SetLink(doc: int, id: int, to: Option<int>)
      requires doc in reports
      modifies this`reports
      ensures doc in reports && |reports[doc].facts| == |old(reports)[doc].facts|
      ensures forall i :: 0 <= i < |reports[doc].facts| ==>
        var row := old(reports)[doc].facts[i];
        reports[doc].facts[i] == if row.id == id then row.(sameFigureAs := to) else row
      ensures reports == old(reports)[doc := old(reports)[doc].(facts := reports[doc].facts)]
    {
      var side := reports[doc];
      var facts := seq(|side.facts|, i requires 0 <= i < |side.facts| =>
        if side.facts[i].id == id then side.facts[i].(sameFigureAs := to) else side.facts[i]);
      reports := reports[doc := side.(facts := facts)];
    }

    method Retire(doc: int, retire: seq<int>)
      requires doc in reports
      modifies this`reports
      ensures reports == DeleteIn(old(reports), doc, Gone(old(reports)[doc].facts, retire))
    {
      ghost var was := reports;
      ghost var facts := reports[doc].facts;
      DeleteNone(was, doc);
      assert retire[..0] == [] && Gone(facts, []) == {};
      for k := 0 to |retire|
        invariant doc in reports && reports == DeleteIn(was, doc, Gone(facts, retire[..k]))
      {
        GoneNext(facts, retire, k);
        DeleteTwice(was, doc, Gone(facts, retire[..k]), Gone(reports[doc].facts, [retire[k]]));
        DeleteUndecided(doc, retire[k]);
      }
      assert retire[..|retire|] == retire;
    }

    method Insert(doc: int, insert: seq<Fact>)
      requires doc in reports
      modifies this
      ensures nextId == old(nextId) + |insert|
      ensures var side := old(reports)[doc];
        reports == old(reports)[doc := side.(facts := side.facts + NewRows(insert, old(nextId)))]
    {
      ghost var was, side, next := reports, reports[doc], nextId;
      assert side.facts + NewRows(insert[..0], next) == side.facts;
      for k := 0 to |insert|
        invariant nextId == next + k
        invariant reports == was[doc := side.(facts := side.facts + NewRows(insert[..k], next))]
      {
        assert side.facts + NewRows(insert[..k + 1], next)
          == (side.facts + NewRows(insert[..k], next)) + [NewRow(insert[k], next + k)];
        InsertFigure(doc, insert[k]);
      }
      assert insert[..|insert|] == insert;
    }

    method UpdateAll(doc: int, update: seq<Update>)
      requires doc in reports
      modifies this`reports
      ensures var side := old(reports)[doc];
        reports == old(reports)[doc := side.(facts := UpdateRows(side.facts, update))]
    {
      ghost var was, side := reports, reports[doc];
      assert UpdateRows(side.facts, update[..0]) == side.facts;
      for k := 0 to |update|
        invariant reports == was[doc := side.(facts := UpdateRows(side.facts, update[..k]))]
      {
        UpdateRowsNext(side.facts, update, k);
        UpdateFigure(doc, update[k]);
      }
      assert update[..|update|] == update;
    }

    /** Ids by key, computed on the figures as they now are. */
    method IdsByKey(doc: int) returns (idOf: map<Key, int>)
      requires doc in reports && InIdOrder(reports[doc].facts)
      ensures IsIdIndex(idOf, reports[doc].facts)
    {
      var now := FetchFigures(doc);
      var sorted := Sorted(now);
      FetchOrderIsIrrelevant(now, reports[doc].facts);
      var keys := KeysOf(now);
      idOf := map[];
      for i := 0 to |sorted|
        invariant IsIdIndexUpTo(idOf, sorted, i)
      {
        IdIndexNext(idOf, sorted, i);
        idOf := idOf[keys[sorted[i].id] := sorted[i].id];
      }
      IdIndexDone(idOf, sorted);
    }

    method WriteHistory(doc: int, idOf: map<Key, int>, ghost base: seq<Fact>, rows: seq<KeyedHistory>)
      returns (ok: bool)
      requires doc in reports && IsIdIndex(idOf, base)
      modifies this`reports
      ensures ok <==> KnowsHistory(base, rows)
      ensures ok ==> var side := old(reports)[doc];
        reports == old(reports)[doc := side.(history := side.history + NewHistory(base, rows))]
    {
      ghost var was, side := reports, reports[doc];
      assert side.history + NewHistory(base, rows[..0]) == side.history;
      for k := 0 to |rows|
        invariant KnowsHistory(base, rows[..k])
        invariant reports == was[doc := side.(history := side.history + NewHistory(base, rows[..k]))]
      {
        assert rows[..k + 1] == rows[..k] + [rows[k]];
        if rows[k].figure !in idOf {
          assert rows[k] in rows && IdFor(base, rows[k].figure).None?;
          return false;
        }
        assert side.history + NewHistory(base, rows[..k + 1])
          == (side.history + NewHistory(base, rows[..k])) + [rows[k].row.(factId := idOf[rows[k].figure])];
        InsertHistory(doc, idOf[rows[k].figure], rows[k].row);
      }
      assert rows[..|rows|] == rows;
      ok := true;
    }

    method WriteLinks(doc: int, idOf: map<Key, int>, ghost base: seq<Fact>, links: seq<Link>)
      returns (ok: bool)
      requires doc in reports && IsIdIndex(idOf, base)
      modifies this`reports
      ensures ok <==> KnowsLinks(base, links)
      ensures ok ==> var side := old(reports)[doc];
        reports == old(reports)[doc := side.(facts := LinkRows(side.facts, base, links))]
    {
      hide RowLinked, LinkRow, IdFor;
      ghost var was, side := reports, reports[doc];
      LinkNone(side.facts, base);
      assert links[..0] == [];
      for k := 0 to |links|
        invariant KnowsLinks(base, links[..k])
        invariant reports == was[doc := side.(facts := LinkRows(side.facts, base, links[..k]))]
      {
        assert links[..k + 1] == links[..k] + [links[k]];
        var l := links[k];
        if l.figure !in idOf || (l.sameAs.Some? && l.sameAs.value !in idOf) {
          assert links[k] in links && !KnowsLink(base, l);
          return false;
        }
        LinkRowsNext(side.facts, base, links, k);
        var to := if l.sameAs.None? then None else Some(idOf[l.sameAs.value]);
        SetLink(doc, idOf[l.figure], to);
        LinkStatement(LinkRows(side.facts, base, links[..k]), reports[doc].facts, base, l, idOf[l.figure], to);
      }
      assert links[..|links|] == links;
      ok := true;
    }

    /** Write one report's plan, inside the caller's transaction. */
    method Apply(doc: int, plan: Plan) returns (ok: bool)
      requires doc in reports && Storable(reports[doc].facts, nextId)
      modifies this
      ensures ok <==> WrittenTo(old(reports), old(nextId), doc, plan).Some?
      ensures ok ==> Some(reports) == WrittenTo(old(reports), old(nextId), doc, plan)
      ensures ok ==> nextId == old(nextId) + |plan.insert|
    {
      ghost var base := Placed(reports[doc].facts, plan, nextId);
      PlacedInOrder(reports[doc].facts, plan, nextId);
      ghost var deleted := DeleteIn(reports, doc, Gone(reports[doc].facts, plan.retire));
      ghost var history := deleted[doc].history;
      Retire(doc, plan.retire);
      Insert(doc, plan.insert);
      UpdateAll(doc, plan.update);
      assert reports == deleted[doc := FactSide(base, history)];
      var idOf := IdsByKey(doc);
      ok := WriteHistory(doc, idOf, base, plan.history);
      if ok {
        ok := WriteLinks(doc, idOf, base, plan.links);
        if ok {
          var side := FactSide(LinkRows(base, base, plan.links), history + NewHistory(base, plan.history));
          assert reports == deleted[doc := side];
        }
      }
    }

    /** Plan every report, before anything is written. */
    method PlanAll(pairs: seq<Pair>) returns (plans: seq<Plan>, unsettled: nat)
      requires Consistent(reports, nextId) && Refreshable(pairs, reports)
      ensures plans == Plans(pairs, reports) && unsettled == Unsettled(plans, |pairs|)
    {
      hide PlanOf, IsSettled, Consistent, Refreshable, Storable, InIdOrder;
      plans, unsettled := [], 0;
      RefreshableIsHeld(pairs, reports);
      ghost var all := Plans(pairs, reports);
      for i := 0 to |pairs|
        invariant plans == all[..i]
        invariant unsettled == Unsettled(all, i)
      {
        CanPlan(reports, nextId, pairs, reports, nextId, i);
        var plan := PlanRefresh(pairs[i].source, reports[pairs[i].doc]);
        plans := plans + [plan];
        unsettled := unsettled + if IsSettled(plan) then 0 else 1;
      }
      assert plans == all;
    }

    /** Write every plan that is not empty; stop at the first failed lookup. */
    method ApplyAll(pairs: seq<Pair>, plans: seq<Plan>) returns (ok: bool)
      requires Consistent(reports, nextId) && Refreshable(pairs, reports) && plans == Plans(pairs, reports)
      modifies this
      ensures var all := WriteAll(old(reports), old(nextId), pairs, plans, |pairs|);
        if ok then all == Some((reports, nextId)) else all == None
    {
      hide PlanOf, IsSettled, WrittenTo, Consistent, Refreshable, Storable, InIdOrder;
      ghost var was, next := reports, nextId;
      RefreshableIsHeld(pairs, was);
      for i := 0 to |pairs|
        invariant WriteAll(was, next, pairs, plans, i) == Some((reports, nextId))
      {
        if !IsSettled(plans[i]) {
          WriteAllConsistent(was, next, pairs, i);
          CanPlan(was, next, pairs, reports, nextId, i);
          ok := Apply(pairs[i].doc, plans[i]);
          if !ok {
            WriteAllFails(was, next, pairs, plans, i + 1, |pairs|);
            return;
          }
        }
      }
      ok := true;
    }

    /** Every report is planned a second time, up to the first whose plan is not empty. */
    method Recheck(pairs: seq<Pair>) returns (differs: Option<int>)
      requires Held(pairs, reports) && Consistent(reports, nextId) && Refreshable(pairs, reports)
      ensures differs == FirstDiffering(pairs, reports, |pairs|)
    {
      hide PlanOf, IsSettled, Consistent, Refreshable, Storable, InIdOrder;
      for i := 0 to |pairs|
        invariant FirstDiffering(pairs, reports, i).None?
      {
        CanPlan(reports, nextId, pairs, reports, nextId, i);
        var again := PlanRefresh(pairs[i].source, reports[pairs[i].doc]);
        if !IsSettled(again) {
          FirstStaysFirst(pairs, reports, i + 1, |pairs|);
          return Some(pairs[i].doc);
        }
      }
      differs := None;
    }

    /**
     * Refresh every report both sides hold, or leave the target as it was. `second` is what the
     * source reads when the plans are made again.
     */
    method Refresh(pairs: seq<Pair>, second: seq<FactSide>, dryRun: bool)
      returns (outcome: Result<Outcome, RefreshError>)
      requires Consistent(reports, nextId) && Refreshable(pairs, reports)
      requires |second| == |pairs| && forall i :: 0 <= i < |second| ==> Readable(second[i])
      modifies this
      ensures (outcome, reports, nextId) == Refreshed(old(reports), old(nextId), pairs, second, dryRun)
      ensures Consistent(reports, nextId) && Refreshable(pairs, reports)
    {
      hide PlanOf, IsSettled, WriteAll, FirstDiffering, Unsettled, Plans, Consistent, Refreshable, Readable;
      var saved := reports;
      ghost var next := nextId;
      RefreshableIsHeld(pairs, reports);
      WriteAllConsistent(reports, nextId, pairs, |pairs|);
      RefreshStaysConsistent(reports, nextId, pairs, second, dryRun);
      var plans, unsettled := PlanAll(pairs);
      if unsettled == 0 {
        return Ok(Outcome(0, false));
      }
      var ok := ApplyAll(pairs, plans);
      if !ok {
        reports := saved;
        WriteAllSucceeds(saved, next, pairs);
        return Err(NoSuchFigure);
      }
      StillRefreshable(pairs, saved, reports);
      RereadIsRefreshable(pairs, second, reports);
      var differs := Recheck(Reread(pairs, second));
      if differs.Some? {
        reports := saved;
        return Err(StillDiffers(differs.value));
      }
      if dryRun {
        reports := saved;
      }
      outcome := Ok(Outcome(unsettled, !dryRun));
    }
  }
}
