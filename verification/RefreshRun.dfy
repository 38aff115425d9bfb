/**
 * A whole refresh as a function of the target and of the two readings of the source, and the
 * theorem about its own check of its work: planning every report again, it refuses to commit
 * exactly when the second reading of the source no longer agrees with what was written.
 */
module RefreshRun {
  import opened Wrappers
  import opened Figures
  import opened RefreshPlan
  import opened RefreshApply
  import opened RefreshRows
  import opened RefreshHolds
  import opened RefreshDecisions
  import opened RefreshStorable
  import opened RefreshSteps

  /** Every table's rows are storable, and no id is used by two reports. */
  ghost predicate Consistent(reports: map<int, FactSide>, next: int) {
    && (forall d :: d in reports ==> Storable(reports[d].facts, next))
    && (forall d, e :: d in reports && e in reports && d != e ==> Apart(reports[d].facts, reports[e].facts))
  }

  predicate Apart(a: seq<Fact>, b: seq<Fact>) {
    forall f, g :: f in a && g in b ==> f.id != g.id
  }

  /** The whole database after one report's plan is written; `None` where a lookup fails. */
  function WrittenTo(reports: map<int, FactSide>, next: int, doc: int, plan: Plan): Option<map<int, FactSide>>
    requires doc in reports
  {
    match Applied(reports[doc], plan, next)
    case None => None
    case Some(side) => Some(DeleteIn(reports, doc, Gone(reports[doc].facts, plan.retire))[doc := side])
  }

  // ----- The run as a function -----

  datatype Pair = Pair(source: FactSide, doc: int)
  datatype Outcome = Outcome(reports: nat, committed: bool)
  datatype RefreshError = NoSuchFigure | StillDiffers(doc: int)

  ghost predicate Held(pairs: seq<Pair>, reports: map<int, FactSide>) {
    forall i :: 0 <= i < |pairs| ==> pairs[i].doc in reports
  }

  /** Each report is refreshed once, from rows a database returned in id order. */
  ghost predicate Refreshable(pairs: seq<Pair>, reports: map<int, FactSide>) {
    && Held(pairs, reports)
    && (forall i :: 0 <= i < |pairs| ==> Readable(pairs[i].source))
    && (forall i, j :: 0 <= i < j < |pairs| ==> pairs[i].doc != pairs[j].doc)
  }

  ghost predicate Readable(source: FactSide) {
    InIdOrder(source.facts) && forall f :: f in source.facts ==> StatusKnown(f)
  }

  /** Every plan is made before anything is written. */
  ghost function Plans(pairs: seq<Pair>, reports: map<int, FactSide>): (plans: seq<Plan>)
    requires Held(pairs, reports)
    ensures |plans| == |pairs|
    ensures forall i :: 0 <= i < |pairs| ==> plans[i] == PlanOf(pairs[i].source, reports[pairs[i].doc])
  {
    seq(|pairs|, i requires 0 <= i < |pairs| => PlanOf(pairs[i].source, reports[pairs[i].doc]))
  }

  function Unsettled(plans: seq<Plan>, n: nat): nat
    requires n <= |plans|
  {
    if n == 0 then 0 else Unsettled(plans, n - 1) + if IsSettled(plans[n - 1]) then 0 else 1
  }

  /** The first `n` plans written, the empty ones skipped; `None` once a lookup fails. */
  function WriteAll(reports: map<int, FactSide>, next: int, pairs: seq<Pair>, plans: seq<Plan>, n: nat)
    : (r: Option<(map<int, FactSide>, int)>)
    requires n <= |pairs| == |plans|
    requires forall i :: 0 <= i < |pairs| ==> pairs[i].doc in reports
    ensures r.Some? ==> r.value.0.Keys == reports.Keys
  {
    if n == 0 then Some((reports, next))
    else
      match WriteAll(reports, next, pairs, plans, n - 1)
      case None => None
      case Some((now, free)) =>
        if IsSettled(plans[n - 1]) then Some((now, free))
        else
          match WrittenTo(now, free, pairs[n - 1].doc, plans[n - 1])
          case None => None
          case Some(written) => Some((written, free + |plans[n - 1].insert|))
  }

  /** The first report, of the first `n`, that a plan made again still finds different. */
  ghost function FirstDiffering(pairs: seq<Pair>, reports: map<int, FactSide>, n: nat): Option<int>
    requires n <= |pairs| && Held(pairs, reports)
  {
    if n == 0 then None
    else
      var before := FirstDiffering(pairs, reports, n - 1);
      if before.Some? then before
      else if IsSettled(PlanOf(pairs[n - 1].source, reports[pairs[n - 1].doc])) then None
      else Some(pairs[n - 1].doc)
  }

  /** The same reports, as the source reads the second time. */
  function Reread(pairs: seq<Pair>, second: seq<FactSide>): (r: seq<Pair>)
    requires |second| == |pairs|
    ensures |r| == |pairs|
    ensures forall i :: 0 <= i < |pairs| ==> r[i] == Pair(second[i], pairs[i].doc)
  {
    seq(|pairs|, i requires 0 <= i < |pairs| => Pair(second[i], pairs[i].doc))
  }

  /**
   * What a refresh answers, the target it leaves (refused or dry, the one it found) and the
   * sequence's next id, which a rollback does not give back. The source is read once to plan
   * and once more to check.
   */
  ghost function Refreshed(reports: map<int, FactSide>, next: int, pairs: seq<Pair>, second: seq<FactSide>, dryRun: bool)
    : (Result<Outcome, RefreshError>, map<int, FactSide>, int)
    requires Held(pairs, reports) && |second| == |pairs|
  {
    var plans := Plans(pairs, reports);
    var unsettled := Unsettled(plans, |plans|);
    if unsettled == 0 then (Ok(Outcome(0, false)), reports, next)
    else
      match WriteAll(reports, next, pairs, plans, |pairs|)
      case None => (Err(NoSuchFigure), reports, next)
      case Some((written, free)) =>
        match FirstDiffering(Reread(pairs, second), written, |pairs|)
        case Some(doc) => (Err(StillDiffers(doc)), reports, free)
        case None => (Ok(Outcome(unsettled, !dryRun)), if dryRun then reports else written, free)
  }

  // ----- The steps of a run -----

  lemma PlacedInOrder(facts: seq<Fact>, plan: Plan, next: int)
    requires Storable(facts, next)
    ensures InIdOrder(Placed(facts, plan, next))
  {
    hide Count, IndexOf, RowUpdated;
    var gone := Gone(facts, plan.retire);
    KeepInOrder(facts, gone);
    KeepMembers(facts, gone);
    var kept := Keep(facts, gone);
    forall i | 0 <= i < |kept| ensures kept[i].id < next {
      assert kept[i] in kept;
    }
  }

  /** The statement `SetLink` runs is the link step of the specification. */
  lemma LinkStatement(facts: seq<Fact>, linked: seq<Fact>, base: seq<Fact>, l: Link, id: int, to: Option<int>)
    requires |linked| == |facts| && IdFor(base, l.figure) == Some(id) && to == WrittenAs(base, l.sameAs)
    requires forall i :: 0 <= i < |facts| ==>
      linked[i] == if facts[i].id == id then facts[i].(sameFigureAs := to) else facts[i]
    ensures linked == LinkRows(facts, base, [l])
  {
    assert [l][..0] == [];
    forall i | 0 <= i < |facts| ensures linked[i] == RowLinked(facts[i], base, [l]) {
      assert RowLinked(facts[i], base, [l][..0]) == facts[i];
    }
  }

  lemma {:induction false} WriteAllFails(reports: map<int, FactSide>, next: int, pairs: seq<Pair>, plans: seq<Plan>, i: nat, n: nat)
    requires i <= n <= |pairs| == |plans| && Held(pairs, reports)
    requires WriteAll(reports, next, pairs, plans, i).None?
    ensures WriteAll(reports, next, pairs, plans, n).None?
    decreases n
  {
    hide Count, IndexOf, Keep, WrittenTo, IsSettled;
    if i < n {
      WriteAllFails(reports, next, pairs, plans, i, n - 1);
    }
  }

  lemma {:induction false} FirstStaysFirst(pairs: seq<Pair>, reports: map<int, FactSide>, i: nat, n: nat)
    requires i <= n <= |pairs| && Held(pairs, reports) && FirstDiffering(pairs, reports, i).Some?
    ensures FirstDiffering(pairs, reports, n) == FirstDiffering(pairs, reports, i)
    decreases n
  {
    hide Count, IndexOf, Keep, PlanOf, IsSettled;
    if i < n {
      FirstStaysFirst(pairs, reports, i, n - 1);
    }
  }

  /** What one written plan means for the whole target. */
  ghost predicate StepHolds(reports: map<int, FactSide>, next: int, doc: int, source: FactSide,
                            after: map<int, FactSide>, free: int)
    requires doc in reports
  {
    && after.Keys == reports.Keys
    && next <= free
    && Consistent(after, free)
    && Agrees(source, after[doc])
    && (forall d :: d in reports && d != doc ==> OnlyForeignLinksCleared(reports[d], after[d]))
    && DecisionsFollow(source, reports[doc], after[doc])
  }

  ghost predicate OnlyForeignLinksCleared(before: FactSide, after: FactSide) {
    exists gone :: Foreign(before.facts, gone) && after == before.(facts := Unlink(before.facts, gone))
  }

  lemma PlanStepOther(reports: map<int, FactSide>, next: int, doc: int, plan: Plan, d: int, free: int)
    requires Consistent(reports, next) && doc in reports && d in reports && d != doc && next <= free
    ensures var after := DeleteIn(reports, doc, Gone(reports[doc].facts, plan.retire));
      && OnlyForeignLinksCleared(reports[d], after[d])
      && Storable(after[d].facts, free)
  {
    hide Count, IndexOf, Keep, Applied, Storable;
    var gone := Gone(reports[doc].facts, plan.retire);
    UnlinkStorable(reports[d].facts, gone, next, free);
    assert Foreign(reports[d].facts, gone);
  }

  lemma PlanStepOthers(reports: map<int, FactSide>, next: int, doc: int, plan: Plan, after: map<int, FactSide>, free: int)
    requires Consistent(reports, next) && doc in reports && next <= free
    requires WrittenTo(reports, next, doc, plan) == Some(after)
    ensures after.Keys == reports.Keys
    ensures forall d :: d in reports && d != doc ==> OnlyForeignLinksCleared(reports[d], after[d])
    ensures forall d :: d in reports && d != doc ==> Storable(after[d].facts, free)
  {
    hide Count, IndexOf, Keep, OnlyForeignLinksCleared, Storable, Applied, Consistent, Gone;
    forall d | d in reports && d != doc
      ensures OnlyForeignLinksCleared(reports[d], after[d])
      ensures Storable(after[d].facts, free)
    {
      PlanStepOther(reports, next, doc, plan, d, free);
    }
  }

  lemma PlanInserts(source: FactSide, target: FactSide)
    ensures var text := TextFacts(source.facts);
      |PlanOf(source, target).insert| == |Inserts(text, target.facts, |text|)|
  {
    hide Count, IndexOf, Keep, Inserts, Updates, Links, Missing;
  }

  lemma OwnStorable(source: FactSide, target: FactSide, next: int)
    requires Storable(target.facts, next) && Readable(source)
    ensures Storable(Written(TextFacts(source.facts), target.facts, next), next + |PlanOf(source, target).insert|)
  {
    hide Count, IndexOf, Keep, Storable, Written, PlanOf, Inserts, TextFacts;
    var text := TextFacts(source.facts);
    TextMembers(source.facts);
    forall i | 0 <= i < |text| ensures StatusKnown(text[i]) {
      assert text[i] in text;
    }
    WrittenStorable(text, target.facts, next);
    PlanInserts(source, target);
  }

  lemma PlanStepOwn(reports: map<int, FactSide>, next: int, doc: int, source: FactSide) returns (after: map<int, FactSide>)
    requires Consistent(reports, next) && doc in reports && Readable(source)
    ensures WrittenTo(reports, next, doc, PlanOf(source, reports[doc])) == Some(after)
    ensures doc in after && Agrees(source, after[doc])
    ensures Storable(after[doc].facts, next + |PlanOf(source, reports[doc]).insert|)
    ensures DecisionsFollow(source, reports[doc], after[doc])
  {
    hide Count, IndexOf, Keep, PlanOf, Applied, Agrees, DecisionsFollow, Gone, DeleteIn, Storable;
    var target := reports[doc];
    RefreshConverges(source, target, next);
    ApplyWrites(source, target, next);
    OwnStorable(source, target, next);
    var plan := PlanOf(source, target);
    var side := Applied(target, plan, next).value;
    DecidedFiguresStay(source, target, next);
    after := DeleteIn(reports, doc, Gone(target.facts, plan.retire))[doc := side];
  }

  /** Writing one report's plan never fails, settles that report, and leaves the rest agreeing. */
  lemma {:induction false} PlanStep(reports: map<int, FactSide>, next: int, doc: int, source: FactSide)
    requires Consistent(reports, next) && doc in reports && Readable(source)
    ensures var plan := PlanOf(source, reports[doc]);
      var after := WrittenTo(reports, next, doc, plan);
      after.Some? && StepHolds(reports, next, doc, source, after.value, next + |plan.insert|)
  {
    hide Count, IndexOf, Keep, PlanOf, WrittenTo, Agrees, Storable, Apart, DecisionsFollow;
    var after := PlanStepOwn(reports, next, doc, source);
    var plan := PlanOf(source, reports[doc]);
    PlanStepOthers(reports, next, doc, plan, after, next + |plan.insert|);
    StepApart(reports, next, doc, source, after);
  }

  lemma UnlinkStorable(facts: seq<Fact>, gone: set<int>, next: int, free: int)
    requires Storable(facts, next) && next <= free
    ensures Storable(Unlink(facts, gone), free)
  {
    hide Count, IndexOf, Keep;
  }

  lemma StepApart(reports: map<int, FactSide>, next: int, doc: int, source: FactSide, after: map<int, FactSide>)
    requires Consistent(reports, next) && doc in reports
    requires WrittenTo(reports, next, doc, PlanOf(source, reports[doc])) == Some(after)
    ensures forall d, e :: d in after && e in after && d != e ==> Apart(after[d].facts, after[e].facts)
  {
    hide Count, IndexOf, Keep;
    var target := reports[doc].facts;
    var text := TextFacts(source.facts);
    ApplyWrites(source, reports[doc], next);
    forall d, e | d in after && e in after && d != e ensures Apart(after[d].facts, after[e].facts) {
      forall f, g | f in after[d].facts && g in after[e].facts ensures f.id != g.id {
        StepId(reports, next, doc, source, after, d, f);
        StepId(reports, next, doc, source, after, e, g);
      }
    }
  }

  /** A row's id is one its report already used, or a new one in the report written. */
  lemma StepId(reports: map<int, FactSide>, next: int, doc: int, source: FactSide, after: map<int, FactSide>, d: int, f: Fact)
    requires Consistent(reports, next) && doc in reports
    requires WrittenTo(reports, next, doc, PlanOf(source, reports[doc])) == Some(after)
    requires d in after && f in after[d].facts
    ensures d in reports
    ensures (exists g :: g in reports[d].facts && g.id == f.id) || (d == doc && next <= f.id)
  {
    hide Count, IndexOf, Keep;
    ApplyWrites(source, reports[doc], next);
    var q :| 0 <= q < |after[d].facts| && after[d].facts[q] == f;
    if d == doc {
      WrittenIds(TextFacts(source.facts), reports[doc].facts, next, q);
    } else {
      assert reports[d].facts[q] in reports[d].facts;
    }
  }

  /**
   * The target part-way through a run: the first `n` reports agree with their sources, and
   * hold what the sources' figures make of their decisions; every other report has lost nothing
   * but links to figures of the reports written.
   */
  ghost predicate Underway(reports: map<int, FactSide>, pairs: seq<Pair>, n: nat, now: map<int, FactSide>, free: int)
    requires n <= |pairs| && Held(pairs, reports)
  {
    && now.Keys == reports.Keys
    && Consistent(now, free)
    && (forall i :: 0 <= i < n ==> Agrees(pairs[i].source, now[pairs[i].doc]))
    && (forall d :: d in reports && (forall i :: 0 <= i < n ==> pairs[i].doc != d) ==>
          OnlyForeignLinksCleared(reports[d], now[d]))
    && (forall i :: 0 <= i < n ==> DecisionsFollow(pairs[i].source, reports[pairs[i].doc], now[pairs[i].doc]))
  }

  lemma ClearedTwice(a: FactSide, b: FactSide, c: FactSide)
    requires OnlyForeignLinksCleared(a, b) && OnlyForeignLinksCleared(b, c)
    ensures OnlyForeignLinksCleared(a, c)
  {
    hide Count, IndexOf, Keep;
    var g :| Foreign(a.facts, g) && b == a.(facts := Unlink(a.facts, g));
    var h :| Foreign(b.facts, h) && c == b.(facts := Unlink(b.facts, h));
    UnlinkTwice(a.facts, g, h);
    forall i | 0 <= i < |a.facts| ensures a.facts[i].id !in g + h {
      assert b.facts[i].id == a.facts[i].id;
    }
  }

  lemma ClearedPlans(source: FactSide, a: FactSide, b: FactSide)
    requires OnlyForeignLinksCleared(a, b)
    ensures PlanOf(source, b) == PlanOf(source, a)
    ensures Agrees(source, b) <==> Agrees(source, a)
  {
    hide Count, IndexOf, Keep;
    var g :| Foreign(a.facts, g) && b == a.(facts := Unlink(a.facts, g));
    PlanIgnoresForeign(source, a, g);
    SettledMeansAgrees(source, a);
    SettledMeansAgrees(source, b);
  }

  lemma ClearedLinksDiffer(a: FactSide, b: FactSide)
    requires OnlyForeignLinksCleared(a, b)
    ensures OnlyLinksDiffer(a, b)
  {
  }

  lemma NothingCleared(a: FactSide)
    ensures OnlyForeignLinksCleared(a, a)
  {
    hide Count, IndexOf, Keep;
    assert Unlink(a.facts, {}) == a.facts;
    assert Foreign(a.facts, {}) && a == a.(facts := Unlink(a.facts, {}));
  }

  lemma UnderwayStart(reports: map<int, FactSide>, pairs: seq<Pair>, next: int)
    requires Held(pairs, reports) && Consistent(reports, next)
    ensures Underway(reports, pairs, 0, reports, next)
  {
    hide Count, IndexOf, Keep;
    forall d | d in reports ensures OnlyForeignLinksCleared(reports[d], reports[d]) {
      NothingCleared(reports[d]);
    }
  }

  lemma {:induction false} UnderwaySkip(reports: map<int, FactSide>, pairs: seq<Pair>, n: nat, now: map<int, FactSide>, free: int)
    requires Refreshable(pairs, reports) && n < |pairs| && Underway(reports, pairs, n, now, free)
    requires IsSettled(PlanOf(pairs[n].source, reports[pairs[n].doc]))
    ensures Underway(reports, pairs, n + 1, now, free)
  {
    hide Count, IndexOf, Keep, Consistent, DecisionsFollow, PlanOf, Agrees, IsSettled, OnlyForeignLinksCleared;
    var doc := pairs[n].doc;
    SettledMeansAgrees(pairs[n].source, reports[doc]);
    ClearedPlans(pairs[n].source, reports[doc], now[doc]);
    AgreeingFollows(pairs[n].source, now[doc]);
    ClearedLinksDiffer(reports[doc], now[doc]);
    FollowsFromSameRows(pairs[n].source, reports[doc], now[doc], now[doc]);
  }

  lemma UnderwayAgrees(reports: map<int, FactSide>, pairs: seq<Pair>, n: nat, now: map<int, FactSide>, free: int,
                       after: map<int, FactSide>, i: nat)
    requires Refreshable(pairs, reports) && i < n < |pairs| && Underway(reports, pairs, n, now, free)
    requires after.Keys == now.Keys
    requires forall d :: d in now && d != pairs[n].doc ==> OnlyForeignLinksCleared(now[d], after[d])
    ensures Agrees(pairs[i].source, after[pairs[i].doc])
  {
    hide Count, IndexOf, Keep, PlanOf, Agrees, Consistent, OnlyForeignLinksCleared, DecisionsFollow;
    ClearedPlans(pairs[i].source, now[pairs[i].doc], after[pairs[i].doc]);
  }

  lemma UnderwayFollows(reports: map<int, FactSide>, pairs: seq<Pair>, n: nat, now: map<int, FactSide>, free: int,
                        after: map<int, FactSide>, i: nat)
    requires Refreshable(pairs, reports) && i <= n < |pairs| && Underway(reports, pairs, n, now, free)
    requires after.Keys == now.Keys
    requires DecisionsFollow(pairs[n].source, now[pairs[n].doc], after[pairs[n].doc])
    requires forall d :: d in now && d != pairs[n].doc ==> OnlyForeignLinksCleared(now[d], after[d])
    ensures DecisionsFollow(pairs[i].source, reports[pairs[i].doc], after[pairs[i].doc])
  {
    hide Count, IndexOf, Keep, PlanOf, Agrees, Consistent, DecisionsFollow, OnlyForeignLinksCleared, OnlyLinksDiffer;
    var doc, source := pairs[i].doc, pairs[i].source;
    if i == n {
      ClearedLinksDiffer(reports[doc], now[doc]);
      FollowsFromSameRows(source, reports[doc], now[doc], after[doc]);
    } else {
      ClearedLinksDiffer(now[doc], after[doc]);
      FollowsToSameRows(source, reports[doc], now[doc], after[doc]);
    }
  }

  lemma {:induction false} UnderwayStep(reports: map<int, FactSide>, pairs: seq<Pair>, n: nat, now: map<int, FactSide>, free: int)
    requires Refreshable(pairs, reports) && n < |pairs| && Underway(reports, pairs, n, now, free)
    ensures var plan := PlanOf(pairs[n].source, reports[pairs[n].doc]);
      var after := WrittenTo(now, free, pairs[n].doc, plan);
      after.Some? && Underway(reports, pairs, n + 1, after.value, free + |plan.insert|)
  {
    hide Count, IndexOf, Keep, PlanOf, WrittenTo, Agrees, Consistent, DecisionsFollow, OnlyForeignLinksCleared;
    var doc, source := pairs[n].doc, pairs[n].source;
    ClearedPlans(source, reports[doc], now[doc]);
    PlanStep(now, free, doc, source);
    var after := WrittenTo(now, free, doc, PlanOf(source, reports[doc])).value;
    forall i | 0 <= i < n + 1 ensures Agrees(pairs[i].source, after[pairs[i].doc]) {
      if i < n {
        UnderwayAgrees(reports, pairs, n, now, free, after, i);
      }
    }
    forall d | d in reports && (forall i :: 0 <= i < n + 1 ==> pairs[i].doc != d)
      ensures OnlyForeignLinksCleared(reports[d], after[d])
    {
      assert pairs[n].doc != d;
      ClearedTwice(reports[d], now[d], after[d]);
    }
    forall i | 0 <= i < n + 1 ensures DecisionsFollow(pairs[i].source, reports[pairs[i].doc], after[pairs[i].doc]) {
      UnderwayFollows(reports, pairs, n, now, free, after, i);
    }
  }

  /** Every prefix of the run can be written, and leaves what `Underway` says. */
  lemma {:induction false} WriteAllHolds(reports: map<int, FactSide>, next: int, pairs: seq<Pair>, n: nat)
    requires Consistent(reports, next) && Refreshable(pairs, reports) && n <= |pairs|
    ensures var r := WriteAll(reports, next, pairs, Plans(pairs, reports), n);
      r.Some? && Underway(reports, pairs, n, r.value.0, r.value.1)
  {
    hide Count, IndexOf, Keep, PlanOf, WrittenTo, Underway, IsSettled, Consistent;
    if n == 0 {
      UnderwayStart(reports, pairs, next);
    } else {
      WriteAllHolds(reports, next, pairs, n - 1);
      var r := WriteAll(reports, next, pairs, Plans(pairs, reports), n - 1).value;
      if IsSettled(Plans(pairs, reports)[n - 1]) {
        UnderwaySkip(reports, pairs, n - 1, r.0, r.1);
      } else {
        UnderwayStep(reports, pairs, n - 1, r.0, r.1);
      }
    }
  }

  lemma RefreshableIsHeld(pairs: seq<Pair>, reports: map<int, FactSide>)
    requires Refreshable(pairs, reports)
    ensures Held(pairs, reports)
  {
  }

  lemma RereadIsRefreshable(pairs: seq<Pair>, second: seq<FactSide>, reports: map<int, FactSide>)
    requires Refreshable(pairs, reports) && |second| == |pairs|
    requires forall i :: 0 <= i < |second| ==> Readable(second[i])
    ensures Refreshable(Reread(pairs, second), reports) && Held(Reread(pairs, second), reports)
  {
    hide Readable;
  }

  lemma StillRefreshable(pairs: seq<Pair>, reports: map<int, FactSide>, now: map<int, FactSide>)
    requires Refreshable(pairs, reports) && now.Keys == reports.Keys
    ensures Refreshable(pairs, now) && Held(pairs, now)
  {
  }

  /** A consistent target and a readable source are what the planner asks for. */
  lemma CanPlan(reports: map<int, FactSide>, next: int, pairs: seq<Pair>, now: map<int, FactSide>, free: int, i: nat)
    requires Refreshable(pairs, reports) && Consistent(now, free) && now.Keys == reports.Keys && i < |pairs|
    ensures pairs[i].doc in now && InIdOrder(pairs[i].source.facts) && Storable(now[pairs[i].doc].facts, free)
    ensures InIdOrder(now[pairs[i].doc].facts)
  {
  }

  lemma WriteAllConsistent(reports: map<int, FactSide>, next: int, pairs: seq<Pair>, n: nat)
    requires Consistent(reports, next) && Refreshable(pairs, reports) && n <= |pairs|
    ensures var r := WriteAll(reports, next, pairs, Plans(pairs, reports), n);
      r.Some? ==> Consistent(r.value.0, r.value.1)
  {
    hide Count, IndexOf, Keep;
    WriteAllHolds(reports, next, pairs, n);
  }

  lemma WriteAllSucceeds(reports: map<int, FactSide>, next: int, pairs: seq<Pair>)
    requires Consistent(reports, next) && Refreshable(pairs, reports)
    ensures WriteAll(reports, next, pairs, Plans(pairs, reports), |pairs|).Some?
  {
    hide Underway, Consistent;
    WriteAllHolds(reports, next, pairs, |pairs|);
  }

  lemma {:induction false} NoneDiffers(pairs: seq<Pair>, reports: map<int, FactSide>, n: nat)
    requires n <= |pairs| && Held(pairs, reports)
    ensures FirstDiffering(pairs, reports, n).None? <==> forall i :: 0 <= i < n ==> Agrees(pairs[i].source, reports[pairs[i].doc])
  {
    hide Count, IndexOf, Keep, PlanOf, Agrees, IsSettled;
    if n > 0 {
      NoneDiffers(pairs, reports, n - 1);
      SettledMeansAgrees(pairs[n - 1].source, reports[pairs[n - 1].doc]);
    }
  }

  lemma {:induction false} NoneUnsettled(pairs: seq<Pair>, reports: map<int, FactSide>, n: nat)
    requires n <= |pairs| && Held(pairs, reports)
    ensures Unsettled(Plans(pairs, reports), n) == 0
       <==> forall i :: 0 <= i < n ==> Agrees(pairs[i].source, reports[pairs[i].doc])
  {
    hide Count, IndexOf, Keep, PlanOf, Agrees, IsSettled;
    if n > 0 {
      NoneUnsettled(pairs, reports, n - 1);
      SettledMeansAgrees(pairs[n - 1].source, reports[pairs[n - 1].doc]);
    }
  }

  // ----- The theorems -----

  /** The target once every plan is written. */
  ghost function AfterWriting(reports: map<int, FactSide>, next: int, pairs: seq<Pair>): map<int, FactSide>
    requires Held(pairs, reports)
  {
    match WriteAll(reports, next, pairs, Plans(pairs, reports), |pairs|)
    case None => reports
    case Some((written, _)) => written
  }

  /**
   * Writing every plan never fails. Every report refreshed then agrees with the source it was
   * planned from, each decision of it is what that source makes of it, and a report not
   * refreshed loses nothing but links to figures that were retired.
   */
  lemma {:induction false} WritingHolds(reports: map<int, FactSide>, next: int, pairs: seq<Pair>)
    requires Consistent(reports, next) && Refreshable(pairs, reports)
    ensures WriteAll(reports, next, pairs, Plans(pairs, reports), |pairs|).Some?
    ensures var written := AfterWriting(reports, next, pairs);
      && written.Keys == reports.Keys
      && (forall i :: 0 <= i < |pairs| ==> Agrees(pairs[i].source, written[pairs[i].doc]))
      && (forall i :: 0 <= i < |pairs| ==> DecisionsFollow(pairs[i].source, reports[pairs[i].doc], written[pairs[i].doc]))
      && (forall d :: d in reports && (forall i :: 0 <= i < |pairs| ==> pairs[i].doc != d) ==>
            OnlyForeignLinksCleared(reports[d], written[d]))
  {
    hide Count, IndexOf, Keep, PlanOf, IsSettled, Consistent, WriteAll, WrittenTo, Agrees, DecisionsFollow, OnlyForeignLinksCleared;
    WriteAllHolds(reports, next, pairs, |pairs|);
  }

  ghost predicate AllAgree(pairs: seq<Pair>, reports: map<int, FactSide>)
    requires Held(pairs, reports)
  {
    forall i :: 0 <= i < |pairs| ==> Agrees(pairs[i].source, reports[pairs[i].doc])
  }

  /**
   * With something to do, a refresh goes through exactly when, read a second time, every source
   * still agrees with the report written from the first reading. Refused, it leaves the target
   * as it was.
   */
  lemma {:induction false} RefreshCommitsExactly(reports: map<int, FactSide>, next: int, pairs: seq<Pair>,
                                                 second: seq<FactSide>, dryRun: bool)
    requires Consistent(reports, next) && Refreshable(pairs, reports) && |second| == |pairs|
    requires !AllAgree(pairs, reports)
    ensures var written := AfterWriting(reports, next, pairs);
      var (outcome, after, _) := Refreshed(reports, next, pairs, second, dryRun);
      && Held(Reread(pairs, second), written)
      && (outcome.Ok? <==> AllAgree(Reread(pairs, second), written))
      && (outcome.Ok? ==> outcome.value.reports > 0 && outcome.value.committed == !dryRun)
      && after == if outcome.Ok? && !dryRun then written else reports
  {
    hide Count, IndexOf, Keep, PlanOf, IsSettled, Consistent, WriteAll, Agrees, DecisionsFollow, OnlyForeignLinksCleared, Unsettled;
    hide FirstDiffering;
    NoneUnsettled(pairs, reports, |pairs|);
    WritingHolds(reports, next, pairs);
    NoneDiffers(Reread(pairs, second), AfterWriting(reports, next, pairs), |pairs|);
  }

  /** A refusal is never a failed lookup: it names the first report its source no longer agrees with. */
  lemma {:induction false} RefusalNamesTheFirst(reports: map<int, FactSide>, next: int, pairs: seq<Pair>,
                                                second: seq<FactSide>, dryRun: bool) returns (i: nat)
    requires Consistent(reports, next) && Refreshable(pairs, reports) && |second| == |pairs|
    requires Refreshed(reports, next, pairs, second, dryRun).0.Err?
    ensures var written := AfterWriting(reports, next, pairs);
      && Held(Reread(pairs, second), written)
      && IsFirstDiffering(Reread(pairs, second), written, i)
      && Refreshed(reports, next, pairs, second, dryRun).0.error == StillDiffers(pairs[i].doc)
  {
    hide Count, IndexOf, Keep, PlanOf, IsSettled, Consistent, WriteAll, Agrees, DecisionsFollow, OnlyForeignLinksCleared, Unsettled;
    hide FirstDiffering;
    WritingHolds(reports, next, pairs);
    i := FirstDifferingIs(Reread(pairs, second), AfterWriting(reports, next, pairs), |pairs|);
  }

  ghost predicate IsFirstDiffering(pairs: seq<Pair>, reports: map<int, FactSide>, i: nat)
    requires Held(pairs, reports)
  {
    && i < |pairs| && !Agrees(pairs[i].source, reports[pairs[i].doc])
    && forall k :: 0 <= k < i ==> Agrees(pairs[k].source, reports[pairs[k].doc])
  }

  lemma {:induction false} FirstDifferingIs(pairs: seq<Pair>, reports: map<int, FactSide>, n: nat) returns (i: nat)
    requires n <= |pairs| && Held(pairs, reports) && FirstDiffering(pairs, reports, n).Some?
    ensures IsFirstDiffering(pairs, reports, i) && FirstDiffering(pairs, reports, n) == Some(pairs[i].doc)
  {
    hide Count, IndexOf, Keep, PlanOf, Agrees, IsSettled;
    NoneDiffers(pairs, reports, n - 1);
    SettledMeansAgrees(pairs[n - 1].source, reports[pairs[n - 1].doc]);
    if FirstDiffering(pairs, reports, n - 1).Some? {
      i := FirstDifferingIs(pairs, reports, n - 1);
    } else {
      i := n - 1;
    }
  }

  /** Two sources that one report agrees with read alike under every key they share. */
  lemma {:induction false} AgreeingSourcesReadAlike(a: FactSide, b: FactSide, target: FactSide, i: nat, k: nat)
    requires Agrees(a, target) && Agrees(b, target)
    requires i < |TextFacts(a.facts)| && k < |TextFacts(b.facts)|
    requires KeyAt(Identities(TextFacts(a.facts)), i) == KeyAt(Identities(TextFacts(b.facts)), k)
    ensures SameCarried(TextFacts(a.facts)[i].carried, TextFacts(b.facts)[k].carried)
  {
    hide Count, IndexOf, TextFacts;
    assert Carries(TextFacts(a.facts), target.facts, i) && Carries(TextFacts(b.facts), target.facts, k);
  }

  /**
   * A figure decided, or changed in any carried column, between the two readings of its source
   * makes the refresh refuse, whatever else it did.
   */
  lemma {:induction false} ChangedSourceIsRefused(reports: map<int, FactSide>, next: int, pairs: seq<Pair>,
                                                  second: seq<FactSide>, dryRun: bool, p: nat, i: nat, k: nat)
    requires Consistent(reports, next) && Refreshable(pairs, reports) && |second| == |pairs|
    requires !AllAgree(pairs, reports) && p < |pairs|
    requires i < |TextFacts(pairs[p].source.facts)| && k < |TextFacts(second[p].facts)|
    requires KeyAt(Identities(TextFacts(pairs[p].source.facts)), i) == KeyAt(Identities(TextFacts(second[p].facts)), k)
    requires !SameCarried(TextFacts(pairs[p].source.facts)[i].carried, TextFacts(second[p].facts)[k].carried)
    ensures var (outcome, after, _) := Refreshed(reports, next, pairs, second, dryRun);
      outcome.Err? && after == reports
  {
    hide Count, IndexOf, Keep, PlanOf, Consistent, Refreshed, AfterWriting, Agrees, SameCarried, TextFacts, WriteAll;
    RefreshCommitsExactly(reports, next, pairs, second, dryRun);
    WritingHolds(reports, next, pairs);
    var written := AfterWriting(reports, next, pairs);
    if Agrees(second[p], written[pairs[p].doc]) {
      AgreeingSourcesReadAlike(pairs[p].source, second[p], written[pairs[p].doc], i, k);
    }
    assert Reread(pairs, second)[p] == Pair(second[p], pairs[p].doc);
    var (outcome, _, _) := Refreshed(reports, next, pairs, second, dryRun);
    assert outcome.Ok? || outcome.Err?;
  }

  function Sources(pairs: seq<Pair>): (r: seq<FactSide>)
    ensures |r| == |pairs| && forall i :: 0 <= i < |pairs| ==> r[i] == pairs[i].source
  {
    seq(|pairs|, i requires 0 <= i < |pairs| => pairs[i].source)
  }

  /**
   * While its source stands still, the refresh never refuses its own work. Every report
   * refreshed then agrees with its source and holds what the source makes of its decisions; a
   * report not refreshed loses nothing but links to figures that were retired.
   */
  lemma {:induction false} RefreshNeverRefuses(reports: map<int, FactSide>, next: int, pairs: seq<Pair>, dryRun: bool)
    requires Consistent(reports, next) && Refreshable(pairs, reports)
    ensures var (outcome, after, _) := Refreshed(reports, next, pairs, Sources(pairs), dryRun);
      && outcome.Ok?
      && after.Keys == reports.Keys
      && (dryRun ==> after == reports)
      && (!dryRun ==> forall i :: 0 <= i < |pairs| ==>
            && Agrees(pairs[i].source, after[pairs[i].doc])
            && DecisionsFollow(pairs[i].source, reports[pairs[i].doc], after[pairs[i].doc]))
      && (forall d :: d in reports && (forall i :: 0 <= i < |pairs| ==> pairs[i].doc != d) ==>
            OnlyForeignLinksCleared(reports[d], after[d]))
      && (outcome.value.reports == 0
          <==> forall i :: 0 <= i < |pairs| ==> Agrees(pairs[i].source, reports[pairs[i].doc]))
  {
    hide Count, IndexOf, Keep, PlanOf, IsSettled, Consistent, WriteAll, Agrees, DecisionsFollow, OnlyForeignLinksCleared, Unsettled;
    hide FirstDiffering;
    NoneUnsettled(pairs, reports, |pairs|);
    if AllAgree(pairs, reports) {
      UnderwayStart(reports, pairs, next);
      forall i | 0 <= i < |pairs| ensures DecisionsFollow(pairs[i].source, reports[pairs[i].doc], reports[pairs[i].doc]) {
        AgreeingFollows(pairs[i].source, reports[pairs[i].doc]);
      }
    } else {
      RefreshCommitsExactly(reports, next, pairs, Sources(pairs), dryRun);
      WritingHolds(reports, next, pairs);
      if dryRun {
        UnderwayStart(reports, pairs, next);
      }
    }
  }

  /** Whatever a refresh answers, the target it leaves can be refreshed again. */
  lemma {:induction false} RefreshStaysConsistent(reports: map<int, FactSide>, next: int, pairs: seq<Pair>,
                                                  second: seq<FactSide>, dryRun: bool)
    requires Consistent(reports, next) && Refreshable(pairs, reports) && |second| == |pairs|
    ensures var (_, after, free) := Refreshed(reports, next, pairs, second, dryRun);
      next <= free && Consistent(after, free) && Refreshable(pairs, after)
  {
    hide Count, IndexOf, Keep, PlanOf, IsSettled, WriteAll, FirstDiffering, Unsettled, Storable, Apart;
    WriteAllHolds(reports, next, pairs, |pairs|);
    var (written, free) := WriteAll(reports, next, pairs, Plans(pairs, reports), |pairs|).value;
    WriteAllGrows(reports, next, pairs, Plans(pairs, reports), |pairs|);
    forall d | d in reports ensures Storable(reports[d].facts, free) {
      StorableLater(reports[d].facts, next, free);
    }
  }

  lemma StorableLater(facts: seq<Fact>, next: int, free: int)
    requires Storable(facts, next) && next <= free
    ensures Storable(facts, free)
  {
    hide Decided, Unverified;
  }

  lemma {:induction false} WriteAllGrows(reports: map<int, FactSide>, next: int, pairs: seq<Pair>, plans: seq<Plan>, n: nat)
    requires n <= |pairs| == |plans| && Held(pairs, reports)
    ensures var r := WriteAll(reports, next, pairs, plans, n); r.Some? ==> next <= r.value.1
  {
    hide Count, IndexOf, Keep, WrittenTo, IsSettled;
    if n > 0 {
      WriteAllGrows(reports, next, pairs, plans, n - 1);
    }
  }

  /** A second refresh finds nothing to do and writes nothing. */
  lemma {:induction false} RefreshIsIdempotent(reports: map<int, FactSide>, next: int, pairs: seq<Pair>)
    requires Consistent(reports, next) && Refreshable(pairs, reports)
    ensures var after := Refreshed(reports, next, pairs, Sources(pairs), false).1;
      && Held(pairs, after)
      && forall free, second: seq<FactSide> :: |second| == |pairs| ==>
           Refreshed(after, free, pairs, second, false) == (Ok(Outcome(0, false)), after, free)
  {
    hide Count, IndexOf, Keep, PlanOf, IsSettled, Consistent, WriteAll, WrittenTo, Agrees;
    RefreshNeverRefuses(reports, next, pairs, false);
    var after := Refreshed(reports, next, pairs, Sources(pairs), false).1;
    NoneUnsettled(pairs, after, |pairs|);
  }

  /**
   * In a refresh that commits, a decision of a refreshed report survives exactly where its
   * source has no figure under the key, or has one with the same decision already.
   */
  lemma {:induction false} RefreshKeepsDecisionExactly(reports: map<int, FactSide>, next: int, pairs: seq<Pair>,
                                                       p: nat, j: nat, g: Fact)
    requires Consistent(reports, next) && Refreshable(pairs, reports) && p < |pairs|
    requires j < |reports[pairs[p].doc].facts| && Decided(reports[pairs[p].doc].facts[j])
    requires var after := Refreshed(reports, next, pairs, Sources(pairs), false).1;
      pairs[p].doc in after && g in after[pairs[p].doc].facts && g.id == reports[pairs[p].doc].facts[j].id
    ensures var text, before := TextFacts(pairs[p].source.facts), reports[pairs[p].doc].facts;
      SameDecision(before[j].carried, g.carried) <==>
        || Unmatched(text, before, j)
        || SameDecision(before[j].carried, Counterpart(text, before, j).carried)
  {
    hide Count, IndexOf, Keep, PlanOf, Refreshed, Agrees, DecisionsFollow, SameDecision, Unmatched, Counterpart;
    var after := Refreshed(reports, next, pairs, Sources(pairs), false).1;
    RefreshNeverRefuses(reports, next, pairs, false);
    RefreshStaysConsistent(reports, next, pairs, Sources(pairs), false);
    DecisionSurvivesExactly(pairs[p].source, reports[pairs[p].doc], after[pairs[p].doc], j, g);
  }
}
