/** The check's loops, proved to report what an exact search reports. */
module ImportChecker {
  import opened Wrappers
  import opened Positions
  import opened ImportPaths
  import opened ImportDirections

  ghost predicate SeenIs(seen: set<string>, all: seq<Visit>) {
    forall f :: f in seen <==> Visited(all, f)
  }

  /** Part-way through the imports of `all[done]`: those before the `k`-th lead to files found. */
  ghost predicate ClosedUpTo(tree: Tree, rule: Rule, all: seq<Visit>, v: Visit, k: nat)
    requires tree.Valid() && v.file in tree.files && k <= |tree.imports[v.file]|
  {
    forall j :: 0 <= j < k ==>
      var e := tree.imports[v.file][j];
      var local := ResolveLocal(v.file, e.specifier, tree.files);
      !Skipped(rule, e) && local.Some? ==> Visited(all, local.value)
  }

  lemma VisitedGrows(all: seq<Visit>, more: seq<Visit>, file: string)
    ensures Visited(all + more, file) <==> Visited(all, file) || Visited(more, file)
  {
    if Visited(all + more, file) {
      var v :| v in all + more && v.file == file;
      assert v in all || v in more;
    }
    if Visited(all, file) {
      var v :| v in all && v.file == file;
      assert v in all + more;
    }
    if Visited(more, file) {
      var v :| v in more && v.file == file;
      assert v in all + more;
    }
  }

  lemma ClosedGrows(tree: Tree, rule: Rule, all: seq<Visit>, done: nat, more: seq<Visit>)
    requires tree.Valid() && done <= |all| && Closed(tree, rule, all, done)
    ensures Closed(tree, rule, all + more, done)
  {
    forall i, b | 0 <= i < done && Leads(tree, rule, (all + more)[i].file, b) ensures Visited(all + more, b) {
      assert Leads(tree, rule, all[i].file, b);
      VisitedGrows(all, more, b);
    }
  }

  /** Having seen every import of `all[done]`, the search is closed one further. */
  lemma ClosedNext(tree: Tree, rule: Rule, all: seq<Visit>, done: nat)
    requires tree.Valid() && done < |all| && all[done].file in tree.files
    requires Closed(tree, rule, all, done) && ClosedUpTo(tree, rule, all, all[done], |tree.imports[all[done].file]|)
    ensures Closed(tree, rule, all, done + 1)
  {
    var edges := tree.imports[all[done].file];
    forall b | Leads(tree, rule, all[done].file, b) ensures Visited(all, b) {
      var e :| e in edges && (e.typeOnly ==> rule.types) && ResolveLocal(all[done].file, e.specifier, tree.files) == Some(b);
      var j :| 0 <= j < |edges| && edges[j] == e;
      assert ResolveLocal(all[done].file, edges[j].specifier, tree.files).Some?;
    }
  }

  /** A file first met while searching `all[done]` joins the end of the line. */
  lemma FoundNext(tree: Tree, rule: Rule, start: string, all: seq<Visit>, done: nat, before: seq<Visit>, next: string)
    requires tree.Valid() && Found(tree, rule, start, all) && done < |all|
    requires before <= all && done < |before| && Found(tree, rule, start, before) && Closed(tree, rule, before, done)
    requires forall i :: 0 <= i < |all| ==> |all[i].via| <= |all[done].via| + 1
    requires !Visited(all, next) && Leads(tree, rule, all[done].file, next) && next in tree.files
    ensures Found(tree, rule, start, all + [Visit(next, all[done].via + [next])])
  {
    hide IsShortest, Leads, IsChain, Closed;
    var rest := all[|before|..];
    assert all == before + rest;
    VisitedGrows(before, rest, next);
    NewIsShortest(tree, rule, start, before, done, next);
    var v := Visit(next, all[done].via + [next]);
    var after := all + [v];
    forall i | 0 <= i < |all| ensures all[i].file != next {
      assert all[i] in all;
    }
  }

  /** The edges of one file, part-way: what has been found, met and reported. */
  ghost predicate Searching(tree: Tree, rule: Rule, start: string, before: seq<Visit>, done: nat, added: seq<Visit>,
                            seen: set<string>, more: seq<Violation>, k: nat)
    requires tree.Valid() && done < |before| && before[done].file in tree.files
    requires k <= |tree.imports[before[done].file]|
  {
    && Found(tree, rule, start, before + added)
    && (forall v :: v in added ==> |v.via| == |before[done].via| + 1)
    && SeenIs(seen, before + added) && seen <= tree.files
    && ClosedUpTo(tree, rule, before + added, before[done], k)
    && more == Findings(rule, start, before[done], tree.imports[before[done].file][..k])
  }

  lemma ClosedUpToGrows(tree: Tree, rule: Rule, all: seq<Visit>, v: Visit, k: nat, more: seq<Visit>)
    requires tree.Valid() && v.file in tree.files && k < |tree.imports[v.file]|
    requires ClosedUpTo(tree, rule, all, v, k)
    requires var e := tree.imports[v.file][k];
      var local := ResolveLocal(v.file, e.specifier, tree.files);
      !Skipped(rule, e) && local.Some? ==> Visited(all + more, local.value)
    ensures ClosedUpTo(tree, rule, all + more, v, k + 1)
  {
    forall file ensures Visited(all, file) ==> Visited(all + more, file) {
      VisitedGrows(all, more, file);
    }
  }

  lemma FindingsNext(rule: Rule, start: string, v: Visit, edges: seq<Edge>, k: nat)
    requires k < |edges|
    ensures Findings(rule, start, v, edges[..k + 1]) == Findings(rule, start, v, edges[..k]) + Finding(rule, start, v, edges[k])
  {
    assert edges[..k + 1][..k] == edges[..k];
  }

  /** An import that leads nowhere new. */
  lemma SearchingStays(tree: Tree, rule: Rule, start: string, before: seq<Visit>, done: nat, added: seq<Visit>,
                       seen: set<string>, more: seq<Violation>, k: nat)
    requires tree.Valid() && done < |before| && before[done].file in tree.files
    requires k < |tree.imports[before[done].file]|
    requires Searching(tree, rule, start, before, done, added, seen, more, k)
    requires var e := tree.imports[before[done].file][k];
      var local := ResolveLocal(before[done].file, e.specifier, tree.files);
      Skipped(rule, e) || local.None? || local.value in seen
    ensures var e := tree.imports[before[done].file][k];
      Searching(tree, rule, start, before, done, added, seen, more + Finding(rule, start, before[done], e), k + 1)
  {
    hide Found, Findings;
    FindingsNext(rule, start, before[done], tree.imports[before[done].file], k);
    assert before + added + [] == before + added;
    ClosedUpToGrows(tree, rule, before + added, before[done], k, []);
  }

  /** An import that leads to a file first met now. */
  lemma SearchingMeets(tree: Tree, rule: Rule, start: string, before: seq<Visit>, done: nat, added: seq<Visit>,
                       seen: set<string>, more: seq<Violation>, k: nat, v: Visit)
    requires tree.Valid() && done < |before| && before[done].file in tree.files
    requires k < |tree.imports[before[done].file]|
    requires Found(tree, rule, start, before) && Closed(tree, rule, before, done)
    requires forall i :: 0 <= i < |before| ==> |before[i].via| <= |before[done].via| + 1
    requires Searching(tree, rule, start, before, done, added, seen, more, k)
    requires var e := tree.imports[before[done].file][k];
      !Skipped(rule, e) && ResolveLocal(before[done].file, e.specifier, tree.files) == Some(v.file)
    requires v.file !in seen && v.via == before[done].via + [v.file]
    ensures var e := tree.imports[before[done].file][k];
      Searching(tree, rule, start, before, done, added + [v], seen + {v.file},
                more + Finding(rule, start, before[done], e), k + 1)
  {
    hide Found, Closed, Finding, Findings, SeenIs, IsShortest;
    assert tree.imports[before[done].file][k] in tree.imports[before[done].file];
    assert Leads(tree, rule, before[done].file, v.file);
    FindingsNext(rule, start, before[done], tree.imports[before[done].file], k);
    NewVisit(tree, rule, start, before, done, added, seen, v);
    ClosedUpToGrows(tree, rule, before + added, before[done], k, [v]);
    assert before + added + [v] == before + (added + [v]);
  }

  /** Every import of one file, judged, and its file put in line if it is new. */
  method Search(tree: Tree, rule: Rule, start: string, next: Visit, seen0: set<string>, ghost before: seq<Visit>, ghost done: nat)
    returns (seen: set<string>, added: seq<Visit>, more: seq<Violation>)
    requires tree.Valid() && done < |before| && before[done] == next && next.file in tree.files
    requires Found(tree, rule, start, before) && Closed(tree, rule, before, done)
    requires forall i :: 0 <= i < |before| ==> |before[i].via| <= |next.via| + 1
    requires SeenIs(seen0, before) && seen0 <= tree.files
    ensures Searching(tree, rule, start, before, done, added, seen, more, |tree.imports[next.file]|)
    ensures if added == [] then seen == seen0 else seen0 < seen
  {
    hide Found, Closed, SeenIs, Searching, Findings;
    seen, added, more := seen0, [], [];
    var edges := tree.imports[next.file];
    SearchingStarts(tree, rule, start, before, done, seen);
    for k := 0 to |edges|
      invariant Searching(tree, rule, start, before, done, added, seen, more, k)
      invariant if added == [] then seen == seen0 else seen0 < seen
    {
      var edge := edges[k];
      if Skipped(rule, edge) {
        SearchingStays(tree, rule, start, before, done, added, seen, more, k);
        assert more + [] == more;
        continue;
      }
      var local := ResolveLocal(next.file, edge.specifier, tree.files);
      var reason := Judge(rule, edge, next.via == []);
      var reported := if reason.Some? then [Violation(rule.id, start, edge.specifier, next.via, reason.value)] else [];
      if local.Some? && local.value !in seen {
        var v := Visit(local.value, next.via + [local.value]);
        SearchingMeets(tree, rule, start, before, done, added, seen, more, k, v);
        seen, added := seen + {local.value}, added + [v];
      } else {
        SearchingStays(tree, rule, start, before, done, added, seen, more, k);
      }
      more := more + reported;
    }
  }

  lemma SearchingStarts(tree: Tree, rule: Rule, start: string, before: seq<Visit>, done: nat, seen: set<string>)
    requires tree.Valid() && done < |before| && before[done].file in tree.files
    requires Found(tree, rule, start, before) && SeenIs(seen, before) && seen <= tree.files
    ensures Searching(tree, rule, start, before, done, [], seen, [], 0)
  {
    assert before + [] == before;
    assert tree.imports[before[done].file][..0] == [];
  }

  lemma NewVisit(tree: Tree, rule: Rule, start: string, before: seq<Visit>, done: nat, added: seq<Visit>,
                 seen: set<string>, v: Visit)
    requires tree.Valid() && done < |before| && v.file in tree.files
    requires Found(tree, rule, start, before) && Closed(tree, rule, before, done)
    requires Found(tree, rule, start, before + added) && SeenIs(seen, before + added) && v.file !in seen
    requires forall i :: 0 <= i < |before| ==> |before[i].via| <= |before[done].via| + 1
    requires forall w :: w in added ==> |w.via| == |before[done].via| + 1
    requires Leads(tree, rule, before[done].file, v.file) && v.via == before[done].via + [v.file]
    ensures Found(tree, rule, start, before + added + [v])
    ensures SeenIs(seen + {v.file}, before + added + [v])
    ensures Visited(before + added + [v], v.file)
  {
    hide IsShortest, IsChain, Leads, Closed;
    var all := before + added;
    assert all[done] == before[done];
    forall i | 0 <= i < |all| ensures |all[i].via| <= |all[done].via| + 1 {
      if i >= |before| {
        assert all[i] in added;
      }
    }
    FoundNext(tree, rule, start, all, done, before, v.file);
    forall f ensures Visited(all + [v], f) <==> Visited(all, f) || f == v.file {
      VisitedGrows(all, [v], f);
      assert v in [v];
    }
  }

  lemma StartIsFound(tree: Tree, rule: Rule, start: string)
    requires tree.Valid() && start in tree.files
    ensures Found(tree, rule, start, [Visit(start, [])])
    ensures SeenIs({start}, [Visit(start, [])])
  {
    var v := Visit(start, []);
    assert v in [v];
  }

  /** Nothing in line is further off than one import more than the next. */
  predicate InReach(all: seq<Visit>, done: nat)
    requires done <= |all|
  {
    done < |all| ==> forall i :: 0 <= i < |all| ==> |all[i].via| <= |all[done].via| + 1
  }

  lemma NothingSearched(tree: Tree, rule: Rule, all: seq<Visit>)
    requires tree.Valid() && |all| == 1
    ensures Closed(tree, rule, all, 0) && InReach(all, 0)
  {
  }

  lemma SearchedIsClosed(tree: Tree, rule: Rule, start: string, all: seq<Visit>, done: nat, added: seq<Visit>,
                         seen: set<string>, more: seq<Violation>)
    requires tree.Valid() && done < |all| && all[done].file in tree.files
    requires Found(tree, rule, start, all) && Closed(tree, rule, all, done) && InReach(all, done)
    requires Searching(tree, rule, start, all, done, added, seen, more, |tree.imports[all[done].file]|)
    ensures Closed(tree, rule, all + added, done + 1) && InReach(all + added, done + 1)
  {
    hide Closed, IsShortest, IsChain;
    ClosedGrows(tree, rule, all, done, added);
    ClosedNext(tree, rule, all + added, done);
    var after := all + added;
    forall i | 0 <= i < |after| ensures |after[i].via| <= |all[done].via| + 1 {
      if i >= |all| {
        assert after[i] in added;
      }
    }
    if done + 1 < |after| {
      if done + 1 < |all| {
        assert |all[done].via| <= |all[done + 1].via|;
      } else {
        assert after[done + 1] in added;
      }
    }
  }

  lemma ReportNext(tree: Tree, rule: Rule, start: string, front: seq<Visit>, next: Visit)
    requires tree.Valid() && next.file in tree.files && forall v :: v in front ==> v.file in tree.files
    ensures Report(tree, rule, start, front + [next])
         == Report(tree, rule, start, front) + Findings(rule, start, next, tree.imports[next.file])
  {
    assert (front + [next])[..|front|] == front;
  }

  lemma EverythingIsReached(tree: Tree, rule: Rule, start: string, all: seq<Visit>)
    requires tree.Valid() && Found(tree, rule, start, all) && Closed(tree, rule, all, |all|)
    ensures IsExactSearch(tree, rule, start, all)
  {
    forall file | Reaches(tree, rule, start, file) ensures Visited(all, file) {
      var c :| IsChain(tree, rule, start, c) && End(start, c) == file;
      AllReached(tree, rule, start, all, c);
    }
  }

  lemma FoundInFiles(tree: Tree, rule: Rule, start: string, all: seq<Visit>, i: nat)
    requires tree.Valid() && Found(tree, rule, start, all) && i < |all|
    ensures all[i].file in tree.files
  {
    assert all[i] in all;
  }

  lemma ReachOf(all: seq<Visit>, done: nat)
    requires done < |all| && InReach(all, done)
    ensures forall i :: 0 <= i < |all| ==> |all[i].via| <= |all[done].via| + 1
  {
  }

  lemma ReportNothing(tree: Tree, rule: Rule, start: string)
    requires tree.Valid()
    ensures Report(tree, rule, start, []) == []
  {
  }

  method CheckFile(tree: Tree, rule: Rule, start: string) returns (found: seq<Violation>, ghost visits: seq<Visit>)
    requires tree.Valid() && start in tree.files
    ensures IsExactSearch(tree, rule, start, visits)
    ensures found == Report(tree, rule, start, visits)
  {
    hide Found, SeenIs, Closed, InReach, Report, Findings, ClosedUpTo;
    found, visits := [], [];
    var seen := {start};
    var queue := [Visit(start, [])];
    StartIsFound(tree, rule, start);
    assert visits + queue == queue;
    NothingSearched(tree, rule, queue);
    ReportNothing(tree, rule, start);
    while |queue| > 0
      invariant Found(tree, rule, start, visits + queue)
      invariant Closed(tree, rule, visits + queue, |visits|)
      invariant InReach(visits + queue, |visits|)
      invariant SeenIs(seen, visits + queue) && seen <= tree.files
      invariant forall v :: v in visits ==> v.file in tree.files
      invariant found == Report(tree, rule, start, visits)
      decreases tree.files - seen, |queue|
    {
      var next := queue[0];
      ghost var all, done := visits + queue, |visits|;
      assert all[done] == next;
      FoundInFiles(tree, rule, start, all, done);
      ReachOf(all, done);
      var added: seq<Visit>, more: seq<Violation>;
      seen, added, more := Search(tree, rule, start, next, seen, all, done);
      SearchedIsClosed(tree, rule, start, all, done, added, seen, more);
      visits := visits + [next];
      queue := queue[1..] + added;
      found := found + more;
      assert visits + queue == all + added;
      assert visits[..done] == all[..done];
      ReportNext(tree, rule, start, all[..done], next);
      assert tree.imports[next.file][..|tree.imports[next.file]|] == tree.imports[next.file];
    }
    assert visits + queue == visits;
    EverythingIsReached(tree, rule, start, visits);
  }

  // ----- The whole check -----

  /** Whether a rule applies to a file; tests are never in scope. */
  predicate InScope(rule: Rule, file: string, isTest: string -> bool) {
    !isTest(file) && exists k :: 0 <= k < |rule.from| && StartsWith(file, rule.from[k])
  }

  /** An import of a file reachable from `start` that breaks the rule. */
  ghost predicate Breaks(tree: Tree, rule: Rule, start: string, file: string, e: Edge)
    requires tree.Valid()
  {
    && file in tree.files && Reaches(tree, rule, start, file)
    && e in tree.imports[file] && IsBreak(rule, e, file == start)
  }

  /** A reported violation is an import that breaks the rule, under a shortest chain to its file. */
  ghost predicate Justified(tree: Tree, rule: Rule, x: Violation)
    requires tree.Valid()
  {
    && IsShortest(tree, rule, x.file, x.via)
    && exists e :: Breaks(tree, rule, x.file, End(x.file, x.via), e) && x.specifier == e.specifier && x.rule == rule.id
         && IsReason(rule, e, x.reason)
  }

  /** Only the start file is visited by the empty chain. */
  lemma OnlyStartIsDirect(tree: Tree, rule: Rule, start: string, visits: seq<Visit>, v: Visit)
    requires tree.Valid() && IsExactSearch(tree, rule, start, visits) && v in visits
    ensures v.via == [] <==> v.file == start
  {
    assert IsChain(tree, rule, start, []) && End(start, []) == start;
    if v.file == start {
      var none: seq<string> := [];
      assert IsChain(tree, rule, start, none) && End(start, none) == End(start, v.via);
    }
  }

  ghost predicate Reported(violations: seq<Violation>, rule: Rule, start: string, file: string, e: Edge) {
    exists x :: x in violations && x.rule == rule.id && x.file == start && End(start, x.via) == file
      && x.specifier == e.specifier && IsReason(rule, e, x.reason)
  }

  /** Every import reachable from a file that breaks the rule is reported. */
  ghost predicate Covers(tree: Tree, rule: Rule, start: string, violations: seq<Violation>)
    requires tree.Valid()
  {
    forall file, e :: Breaks(tree, rule, start, file, e) ==> Reported(violations, rule, start, file, e)
  }

  /**
   * The report of one file is exact: every violation in it is a real import breaking the
   * rule under a shortest chain, and every reachable import that breaks the rule is in it.
   */
  lemma {:induction false} ReportIsExact(tree: Tree, rule: Rule, start: string, visits: seq<Visit>)
    requires tree.Valid() && IsExactSearch(tree, rule, start, visits)
    ensures forall x :: x in Report(tree, rule, start, visits) ==> x.file == start && Justified(tree, rule, x)
    ensures Covers(tree, rule, start, Report(tree, rule, start, visits))
  {
    var report := Report(tree, rule, start, visits);
    forall x | x in report ensures x.file == start && Justified(tree, rule, x) {
      ReportIsJustified(tree, rule, start, visits, x);
    }
    forall file, e | Breaks(tree, rule, start, file, e) ensures Reported(report, rule, start, file, e) {
      BreakIsReported(tree, rule, start, visits, file, e);
    }
  }

  lemma VisitedIsReached(tree: Tree, rule: Rule, start: string, visits: seq<Visit>, v: Visit)
    requires tree.Valid() && IsExactSearch(tree, rule, start, visits) && v in visits
    ensures Reaches(tree, rule, start, v.file)
  {
    assert IsChain(tree, rule, start, v.via) && End(start, v.via) == v.file;
  }

  lemma ReportIsJustified(tree: Tree, rule: Rule, start: string, visits: seq<Visit>, x: Violation)
    requires tree.Valid() && IsExactSearch(tree, rule, start, visits) && x in Report(tree, rule, start, visits)
    ensures x.file == start && Justified(tree, rule, x)
  {
    hide Report, IsShortest, IsChain, Leads, Reaches;
    ReportHolds(tree, rule, start, visits, x);
    var v, e :| v in visits && e in tree.imports[v.file] && x in Finding(rule, start, v, e);
    OnlyStartIsDirect(tree, rule, start, visits, v);
    VisitedIsReached(tree, rule, start, visits, v);
    JudgeIsRight(rule, e, v.via == []);
    hide IsBreak, IsReason, Judge;
    assert Breaks(tree, rule, start, v.file, e);
  }

  lemma BreakIsReported(tree: Tree, rule: Rule, start: string, visits: seq<Visit>, file: string, e: Edge)
    requires tree.Valid() && IsExactSearch(tree, rule, start, visits) && Breaks(tree, rule, start, file, e)
    ensures Reported(Report(tree, rule, start, visits), rule, start, file, e)
  {
    hide Report, IsShortest, IsChain, Leads, Reaches;
    assert Visited(visits, file);
    var v :| v in visits && v.file == file;
    OnlyStartIsDirect(tree, rule, start, visits, v);
    JudgeIsRight(rule, e, v.via == []);
    hide IsBreak, IsReason, Judge;
    var x := Violation(rule.id, start, e.specifier, v.via, Judge(rule, e, v.via == []).value);
    assert Finding(rule, start, v, e) == [x];
    assert x in Finding(rule, start, v, e);
    ReportHolds(tree, rule, start, visits, x);
  }

  // ----- Each import that breaks the rule is reported once -----

  /** The imports of one visited file that break the rule, by position. */
  ghost function BreaksAt(rule: Rule, edges: seq<Edge>, ofStart: bool): set<nat> {
    set k: nat | k < |edges| && IsBreak(rule, edges[k], ofStart)
  }

  /** A violation of this rule on this file, for one import met along one chain. */
  ghost predicate IsReportOf(x: Violation, rule: Rule, start: string, v: Visit, e: Edge) {
    && x.rule == rule.id && x.file == start && x.specifier == e.specifier && x.via == v.via
    && IsReason(rule, e, x.reason)
  }

  lemma {:induction false} FindingsAt(rule: Rule, start: string, v: Visit, edges: seq<Edge>) returns (at: seq<nat>)
    ensures Lists(at, BreaksAt(rule, edges, v.via == []))
    ensures |Findings(rule, start, v, edges)| == |at|
    ensures forall k :: 0 <= k < |at| ==>
      at[k] < |edges| && IsReportOf(Findings(rule, start, v, edges)[k], rule, start, v, edges[at[k]])
  {
    hide IsBreak, IsReason, Judge;
    at := [];
    if edges != [] {
      var n := |edges| - 1;
      at := FindingsAt(rule, start, v, edges[..n]);
      JudgeIsRight(rule, edges[n], v.via == []);
      var s := BreaksAt(rule, edges[..n], v.via == []);
      if IsBreak(rule, edges[n], v.via == []) {
        ListsPush(at, s, n);
        at := at + [n];
        assert BreaksAt(rule, edges, v.via == []) == s + {n};
      } else {
        assert BreaksAt(rule, edges, v.via == []) == s;
      }
    }
  }

  /** A place is a visit and an import of its file; this one breaks the rule. */
  ghost predicate IsBreakAt(tree: Tree, rule: Rule, start: string, visits: seq<Visit>, n: nat, k: nat)
    requires tree.Valid()
  {
    && n < |visits| && visits[n].file in tree.files
    && k < |tree.imports[visits[n].file]|
    && IsBreak(rule, tree.imports[visits[n].file][k], visits[n].file == start)
  }

  datatype Place = Place(visit: nat, edge: nat)

  predicate Before(a: Place, b: Place) {
    a.visit < b.visit || (a.visit == b.visit && a.edge < b.edge)
  }

  ghost predicate InOrder(places: seq<Place>) {
    forall i, j :: 0 <= i < j < |places| ==> Before(places[i], places[j])
  }

  /** The violation at each place is that import's, and the places are in order and are all there are. */
  ghost predicate ArePlaces(tree: Tree, rule: Rule, start: string, visits: seq<Visit>,
                            report: seq<Violation>, places: seq<Place>)
    requires tree.Valid()
  {
    && InOrder(places) && |report| == |places|
    && (forall p :: p in places <==> IsBreakAt(tree, rule, start, visits, p.visit, p.edge))
    && (forall i :: 0 <= i < |places| ==>
          && IsBreakAt(tree, rule, start, visits, places[i].visit, places[i].edge)
          && var v := visits[places[i].visit];
             IsReportOf(report[i], rule, start, v, tree.imports[v.file][places[i].edge]))
  }

  ghost function PlacesOf(n: nat, at: seq<nat>): (places: seq<Place>)
    ensures |places| == |at| && forall k :: 0 <= k < |at| ==> places[k] == Place(n, at[k])
  {
    seq(|at|, k requires 0 <= k < |at| => Place(n, at[k]))
  }

  lemma PlacesHold(n: nat, at: seq<nat>)
    ensures forall p :: p in PlacesOf(n, at) <==> p.visit == n && p.edge in at
  {
    forall p: Place | p.visit == n && p.edge in at ensures p in PlacesOf(n, at) {
      var k :| 0 <= k < |at| && at[k] == p.edge;
      assert PlacesOf(n, at)[k] == p;
    }
  }

  lemma {:induction false} OneMoreVisit(tree: Tree, rule: Rule, start: string, visits: seq<Visit>, report: seq<Violation>,
                                        places: seq<Place>, v: Visit, at: seq<nat>)
    requires tree.Valid() && v.file in tree.files && (v.via == [] <==> v.file == start)
    requires ArePlaces(tree, rule, start, visits, report, places)
    requires Lists(at, BreaksAt(rule, tree.imports[v.file], v.via == []))
    requires |Findings(rule, start, v, tree.imports[v.file])| == |at|
    requires forall k :: 0 <= k < |at| ==>
      && at[k] < |tree.imports[v.file]|
      && IsReportOf(Findings(rule, start, v, tree.imports[v.file])[k], rule, start, v, tree.imports[v.file][at[k]])
    ensures ArePlaces(tree, rule, start, visits + [v], report + Findings(rule, start, v, tree.imports[v.file]),
                      places + PlacesOf(|visits|, at))
  {
    hide IsBreak, IsReportOf, Findings;
    var n, after, more := |visits|, visits + [v], PlacesOf(|visits|, at);
    PlacesHold(n, at);
    forall p: Place ensures p in places + more <==> IsBreakAt(tree, rule, start, after, p.visit, p.edge) {
      if p.visit < n {
        assert after[p.visit] == visits[p.visit];
      }
    }
    forall i | 0 <= i < |places| ensures places[i].visit < n {
      assert places[i] in places;
    }
    forall k | 0 <= k < |at| ensures at[k] in at {
    }
  }

  /** The report holds one violation for each breaking import of each file visited, in that order, and no other. */
  lemma {:induction false} ReportPlaces(tree: Tree, rule: Rule, start: string, visits: seq<Visit>) returns (places: seq<Place>)
    requires tree.Valid()
    requires forall v :: v in visits ==> v.file in tree.files && (v.via == [] <==> v.file == start)
    ensures ArePlaces(tree, rule, start, visits, Report(tree, rule, start, visits), places)
  {
    hide IsBreak, IsReportOf, Findings;
    places := [];
    if visits != [] {
      var n := |visits| - 1;
      places := ReportPlaces(tree, rule, start, visits[..n]);
      hide ArePlaces, Lists;
      var at := FindingsAt(rule, start, visits[n], tree.imports[visits[n].file]);
      OneMoreVisit(tree, rule, start, visits[..n], Report(tree, rule, start, visits[..n]), places, visits[n], at);
      assert visits == visits[..n] + [visits[n]];
      places := places + PlacesOf(n, at);
    }
  }

  /**
   * The report of one file, import by import: one violation for each import of each reachable file
   * that breaks the rule, under the chain the file was met by, and no other.
   */
  lemma {:induction false} EachBreakOnce(tree: Tree, rule: Rule, start: string, visits: seq<Visit>) returns (places: seq<Place>)
    requires tree.Valid() && IsExactSearch(tree, rule, start, visits)
    ensures ArePlaces(tree, rule, start, visits, Report(tree, rule, start, visits), places)
  {
    hide ArePlaces, Report, IsChain, IsShortest;
    forall v | v in visits ensures v.file in tree.files && (v.via == [] <==> v.file == start) {
      OnlyStartIsDirect(tree, rule, start, visits, v);
    }
    hide IsExactSearch;
    places := ReportPlaces(tree, rule, start, visits);
  }

  ghost predicate AllJustified(tree: Tree, rules: seq<Rule>, isTest: string -> bool, violations: seq<Violation>)
    requires tree.Valid()
  {
    forall x :: x in violations ==>
      exists i :: 0 <= i < |rules| && InScope(rules[i], x.file, isTest) && Justified(tree, rules[i], x)
  }

  lemma CoversGrows(tree: Tree, rule: Rule, start: string, a: seq<Violation>, b: seq<Violation>)
    requires tree.Valid() && (Covers(tree, rule, start, a) || Covers(tree, rule, start, b))
    ensures Covers(tree, rule, start, a + b)
  {
    forall file, e | Breaks(tree, rule, start, file, e) ensures Reported(a + b, rule, start, file, e) {
      var x :| (x in a || x in b) && x.rule == rule.id && x.file == start && End(start, x.via) == file
        && x.specifier == e.specifier && IsReason(rule, e, x.reason);
      assert x in a + b;
    }
  }

  /** One file checked under one rule, and the search that was made of it. */
  datatype Checked = Checked(rule: nat, file: string, visits: seq<Visit>)

  ghost predicate IsCheck(tree: Tree, rules: seq<Rule>, isTest: string -> bool, c: Checked)
    requires tree.Valid()
  {
    && c.rule < |rules| && c.file in tree.files && InScope(rules[c.rule], c.file, isTest)
    && IsExactSearch(tree, rules[c.rule], c.file, c.visits)
  }

  ghost function ReportOf(tree: Tree, rules: seq<Rule>, isTest: string -> bool, c: Checked): seq<Violation>
    requires tree.Valid() && IsCheck(tree, rules, isTest, c)
  {
    Report(tree, rules[c.rule], c.file, c.visits)
  }

  /** The reports of the files checked, one after another. */
  ghost function Reports(tree: Tree, rules: seq<Rule>, isTest: string -> bool, done: seq<Checked>): seq<Violation>
    requires tree.Valid() && forall c :: c in done ==> IsCheck(tree, rules, isTest, c)
  {
    if done == [] then []
    else
      var last := done[|done| - 1];
      assert last in done;
      Reports(tree, rules, isTest, done[..|done| - 1]) + ReportOf(tree, rules, isTest, last)
  }

  predicate EachOnce(done: seq<Checked>) {
    forall m, n :: 0 <= m < n < |done| ==> done[m].rule != done[n].rule || done[m].file != done[n].file
  }

  predicate IsDone(done: seq<Checked>, rule: nat, file: string) {
    exists c :: c in done && c.rule == rule && c.file == file
  }

  /** Reports of checks say nothing unjustified and leave nothing out. */
  lemma {:induction false} ReportsHold(tree: Tree, rules: seq<Rule>, isTest: string -> bool, done: seq<Checked>)
    requires tree.Valid() && forall c :: c in done ==> IsCheck(tree, rules, isTest, c)
    ensures AllJustified(tree, rules, isTest, Reports(tree, rules, isTest, done))
    ensures forall c :: c in done ==>
      c.rule < |rules| && Covers(tree, rules[c.rule], c.file, Reports(tree, rules, isTest, done))
  {
    hide Covers, Justified, Breaks, IsExactSearch, Report, InScope;
    if done != [] {
      var n := |done| - 1;
      var front, last := done[..n], done[n];
      assert done == front + [last];
      assert IsCheck(tree, rules, isTest, last);
      ReportsHold(tree, rules, isTest, front);
      ReportIsExact(tree, rules[last.rule], last.file, last.visits);
      var before, more := Reports(tree, rules, isTest, front), ReportOf(tree, rules, isTest, last);
      CoversGrows(tree, rules[last.rule], last.file, before, more);
      forall c | c in done ensures c.rule < |rules| && Covers(tree, rules[c.rule], c.file, before + more) {
        if c in front {
          CoversGrows(tree, rules[c.rule], c.file, before, more);
        }
      }
    }
  }

  /** The paths as a set keeps them: each once, in the order first met. */
  method DistinctPaths(paths: seq<string>) returns (files: seq<string>)
    ensures forall p :: p in files <==> p in paths
    ensures forall i, j :: 0 <= i < j < |files| ==> files[i] != files[j]
  {
    files := [];
    for i := 0 to |paths|
      invariant forall p :: p in files <==> p in paths[..i]
      invariant forall j, k :: 0 <= j < k < |files| ==> files[j] != files[k]
    {
      if paths[i] !in files {
        files := files + [paths[i]];
      }
    }
  }

  /** What is done after rules `..i` and, under rule `i`, the first `j` files. */
  ghost predicate DoneUpTo(tree: Tree, rules: seq<Rule>, isTest: string -> bool, files: seq<string>, done: seq<Checked>, i: nat, j: nat)
    requires tree.Valid() && i <= |rules| && j <= |files|
  {
    && (forall c :: c in done ==> IsCheck(tree, rules, isTest, c))
    && EachOnce(done)
    && (forall c :: c in done ==> c.rule < i || (c.rule == i && c.file in files[..j]))
    && (forall k, l :: 0 <= k < i && 0 <= l < |files| && InScope(rules[k], files[l], isTest) ==> IsDone(done, k, files[l]))
    && (i < |rules| ==> forall l :: 0 <= l < j && InScope(rules[i], files[l], isTest) ==> IsDone(done, i, files[l]))
  }

  lemma {:induction false} OneMoreChecked(tree: Tree, rules: seq<Rule>, isTest: string -> bool, files: seq<string>,
      done: seq<Checked>, i: nat, j: nat, c: Checked)
    requires tree.Valid() && i < |rules| && j < |files|
    requires forall a, b :: 0 <= a < b < |files| ==> files[a] != files[b]
    requires DoneUpTo(tree, rules, isTest, files, done, i, j)
    requires IsCheck(tree, rules, isTest, c) && c.rule == i && c.file == files[j]
    ensures DoneUpTo(tree, rules, isTest, files, done + [c], i, j + 1)
    ensures Reports(tree, rules, isTest, done + [c]) ==
      Reports(tree, rules, isTest, done) + ReportOf(tree, rules, isTest, c)
  {
    hide IsCheck, InScope, ReportOf;
    var more := done + [c];
    assert more[..|done|] == done;
    assert files[j] !in files[..j];
    assert files[..j + 1] == files[..j] + [files[j]];
    assert forall d :: d in done ==> d in more;
    assert c in more;
  }

  lemma {:induction false} OneMorePassedOver(tree: Tree, rules: seq<Rule>, isTest: string -> bool, files: seq<string>,
      done: seq<Checked>, i: nat, j: nat)
    requires tree.Valid() && i < |rules| && j < |files| && !InScope(rules[i], files[j], isTest)
    requires DoneUpTo(tree, rules, isTest, files, done, i, j)
    ensures DoneUpTo(tree, rules, isTest, files, done, i, j + 1)
  {
    hide IsCheck, InScope, EachOnce;
    assert files[..j + 1] == files[..j] + [files[j]];
  }

  /** Under the next rule none of the files is done yet. */
  lemma {:induction false} RuleIsDone(tree: Tree, rules: seq<Rule>, isTest: string -> bool, files: seq<string>,
      done: seq<Checked>, i: nat)
    requires tree.Valid() && i < |rules| && DoneUpTo(tree, rules, isTest, files, done, i, |files|)
    ensures DoneUpTo(tree, rules, isTest, files, done, i + 1, 0)
  {
    hide IsCheck, InScope, EachOnce;
  }

  /**
   * Every rule, on every file in its scope, once: the violations are the reports of exactly these
   * checks, one after another, so nothing else is reported, nothing is missed and nothing repeated.
   */
  method Check(tree: Tree, paths: seq<string>, rules: seq<Rule>, isTest: string -> bool)
    returns (violations: seq<Violation>, ghost done: seq<Checked>)
    requires tree.Valid() && forall p :: p in paths <==> p in tree.files
    ensures forall c :: c in done ==> IsCheck(tree, rules, isTest, c)
    ensures EachOnce(done)
    ensures forall i, file :: 0 <= i < |rules| && file in tree.files && InScope(rules[i], file, isTest) ==>
      IsDone(done, i, file)
    ensures violations == Reports(tree, rules, isTest, done)
    ensures AllJustified(tree, rules, isTest, violations)
    ensures forall i, file :: 0 <= i < |rules| && file in tree.files && InScope(rules[i], file, isTest) ==>
      Covers(tree, rules[i], file, violations)
  {
    hide Covers, Justified, IsExactSearch, Report, EachOnce, Reports;
    var files := DistinctPaths(paths);
    violations, done := [], [];
    NothingChecked(tree, rules, isTest, files);
    for i := 0 to |rules|
      invariant DoneUpTo(tree, rules, isTest, files, done, i, 0)
      invariant violations == Reports(tree, rules, isTest, done)
    {
      for j := 0 to |files|
        invariant DoneUpTo(tree, rules, isTest, files, done, i, j)
        invariant violations == Reports(tree, rules, isTest, done)
      {
        var file := files[j];
        assert file in paths;
        if isTest(file) || !(exists k :: 0 <= k < |rules[i].from| && StartsWith(file, rules[i].from[k])) {
          OneMorePassedOver(tree, rules, isTest, files, done, i, j);
          continue;
        }
        var found, visits := CheckFile(tree, rules[i], file);
        OneMoreChecked(tree, rules, isTest, files, done, i, j, Checked(i, file, visits));
        violations, done := violations + found, done + [Checked(i, file, visits)];
      }
      RuleIsDone(tree, rules, isTest, files, done, i);
    }
    ReportsHold(tree, rules, isTest, done);
    forall i, file | 0 <= i < |rules| && file in tree.files && InScope(rules[i], file, isTest)
      ensures IsDone(done, i, file) && Covers(tree, rules[i], file, violations)
    {
      assert file in files;
      var c :| c in done && c.rule == i && c.file == file;
    }
  }

  lemma NothingChecked(tree: Tree, rules: seq<Rule>, isTest: string -> bool, files: seq<string>)
    requires tree.Valid()
    ensures DoneUpTo(tree, rules, isTest, files, [], 0, 0)
    ensures Reports(tree, rules, isTest, []) == []
  {
  }
}
