/**
 * The check of which files may import which.
 *
 * From one file the check follows local imports breadth first, judging every import it
 * meets. The search is exact: it judges the imports of every file it can reach, of no
 * other, once each, and reports each with a shortest chain of imports leading to it.
 */
module ImportDirections {
  import opened Wrappers
  import opened Positions
  import opened ImportPaths

  datatype Edge = Edge(specifier: string, names: seq<string>, typeOnly: bool)

  /** A rule; its patterns are predicates on specifiers and on names. */
  datatype Rule = Rule(
    id: string,
    from: seq<string>,
    forbids: string -> bool,
    onlyNames: Option<OnlyNames>,
    types: bool
  )
  datatype OnlyNames = OnlyNames(specifier: string, allows: string -> bool)

  /** The tracked files, and the imports each one makes. */
  datatype Tree = Tree(files: set<string>, imports: map<string, seq<Edge>>) {
    predicate Valid() {
      files <= imports.Keys
    }
  }

  datatype Reason = Imports(specifier: string) | Takes(names: seq<string>, specifier: string)

  datatype Violation = Violation(rule: string, file: string, specifier: string, via: seq<string>, reason: Reason)

  function NotAllowed(names: seq<string>, allows: string -> bool): seq<string> {
    if names == [] then []
    else (if allows(names[0]) then [] else [names[0]]) + NotAllowed(names[1..], allows)
  }

  /** The reason an import is reported for, if it is. */
  function Judge(rule: Rule, edge: Edge, direct: bool): Option<Reason> {
    if rule.forbids(edge.specifier) then Some(Imports(edge.specifier))
    else if direct && rule.onlyNames.Some? && edge.specifier == rule.onlyNames.value.specifier && !edge.typeOnly
         && NotAllowed(edge.names, rule.onlyNames.value.allows) != []
    then Some(Takes(NotAllowed(edge.names, rule.onlyNames.value.allows), edge.specifier))
    else None
  }

  predicate Skipped(rule: Rule, edge: Edge) {
    edge.typeOnly && !rule.types
  }

  // ----- What breaks a rule -----

  /** A name the file takes where only others may be taken; said of a file's own imports alone. */
  predicate TakesRefused(rule: Rule, edge: Edge) {
    && rule.onlyNames.Some? && edge.specifier == rule.onlyNames.value.specifier && !edge.typeOnly
    && exists n :: n in edge.names && !rule.onlyNames.value.allows(n)
  }

  /** An import the rule counts, and forbids: its specifier, or, of the start file, a name it takes. */
  predicate IsBreak(rule: Rule, edge: Edge, ofStart: bool) {
    && (edge.typeOnly ==> rule.types)
    && (rule.forbids(edge.specifier) || (ofStart && TakesRefused(rule, edge)))
  }

  ghost function RefusedAt(names: seq<string>, allows: string -> bool): set<nat> {
    set p: nat | p < |names| && !allows(names[p])
  }

  /** `bad` is the names not allowed, in order, as often as they stand there. */
  ghost predicate AreTheRefused(bad: seq<string>, names: seq<string>, allows: string -> bool) {
    exists at :: Lists(at, RefusedAt(names, allows)) && |bad| == |at|
      && forall k :: 0 <= k < |at| ==> at[k] < |names| && bad[k] == names[at[k]]
  }

  /** The reason names the specifier where that is forbidden, and otherwise the names refused. */
  ghost predicate IsReason(rule: Rule, edge: Edge, reason: Reason) {
    if rule.forbids(edge.specifier) then reason == Imports(edge.specifier)
    else
      && rule.onlyNames.Some? && reason.Takes? && reason.specifier == edge.specifier
      && AreTheRefused(reason.names, edge.names, rule.onlyNames.value.allows)
  }

  lemma {:induction false} NotAllowedAt(names: seq<string>, allows: string -> bool) returns (at: seq<nat>)
    ensures Lists(at, RefusedAt(names, allows)) && |NotAllowed(names, allows)| == |at|
    ensures forall k :: 0 <= k < |at| ==> at[k] < |names| && NotAllowed(names, allows)[k] == names[at[k]]
  {
    at := [];
    if names != [] {
      var n := |names| - 1;
      NotAllowedPush(names[..n], names[n], allows);
      assert names == names[..n] + [names[n]];
      at := NotAllowedAt(names[..n], allows);
      var s := RefusedAt(names[..n], allows);
      if allows(names[n]) {
        assert RefusedAt(names, allows) == s;
      } else {
        ListsPush(at, s, n);
        at := at + [n];
        assert RefusedAt(names, allows) == s + {n};
      }
    }
  }

  lemma {:induction false} NotAllowedPush(names: seq<string>, name: string, allows: string -> bool)
    ensures NotAllowed(names + [name], allows) == NotAllowed(names, allows) + if allows(name) then [] else [name]
  {
    if names == [] {
      assert [name][1..] == [];
    } else {
      assert (names + [name])[1..] == names[1..] + [name];
      NotAllowedPush(names[1..], name, allows);
    }
  }

  /** What is judged: an import that is not skipped has a reason exactly when it breaks the rule. */
  lemma {:induction false} JudgeIsRight(rule: Rule, edge: Edge, ofStart: bool)
    ensures var r := Judge(rule, edge, ofStart);
      && (!Skipped(rule, edge) && r.Some? <==> IsBreak(rule, edge, ofStart))
      && (r.Some? ==> IsReason(rule, edge, r.value))
  {
    if rule.onlyNames.Some? {
      var allows := rule.onlyNames.value.allows;
      var bad := NotAllowed(edge.names, allows);
      var at := NotAllowedAt(edge.names, allows);
      assert AreTheRefused(bad, edge.names, allows);
      if n :| n in edge.names && !allows(n) {
        var p :| 0 <= p < |edge.names| && edge.names[p] == n;
        assert p in at;
      }
      if bad != [] {
        assert edge.names[at[0]] in edge.names && at[0] in at;
      }
    }
  }

  // ----- Chains -----

  /** Whether one file leads to another by an import the rule counts. */
  predicate Leads(tree: Tree, rule: Rule, a: string, b: string)
    requires tree.Valid()
  {
    a in tree.files && exists e :: e in tree.imports[a] && (e.typeOnly ==> rule.types) && ResolveLocal(a, e.specifier, tree.files) == Some(b)
  }

  function End(start: string, via: seq<string>): string {
    if via == [] then start else via[|via| - 1]
  }

  predicate IsChain(tree: Tree, rule: Rule, start: string, via: seq<string>)
    requires tree.Valid()
  {
    forall i :: 0 <= i < |via| ==> Leads(tree, rule, End(start, via[..i]), via[i])
  }

  ghost predicate Reaches(tree: Tree, rule: Rule, start: string, file: string)
    requires tree.Valid()
  {
    exists via :: IsChain(tree, rule, start, via) && End(start, via) == file
  }

  /** A chain to its end, and none shorter. */
  ghost predicate IsShortest(tree: Tree, rule: Rule, start: string, via: seq<string>)
    requires tree.Valid()
  {
    && IsChain(tree, rule, start, via)
    && forall c :: IsChain(tree, rule, start, c) && End(start, c) == End(start, via) ==> |via| <= |c|
  }

  lemma ChainFront(tree: Tree, rule: Rule, start: string, via: seq<string>)
    requires tree.Valid() && via != [] && IsChain(tree, rule, start, via)
    ensures IsChain(tree, rule, start, via[..|via| - 1])
    ensures Leads(tree, rule, End(start, via[..|via| - 1]), via[|via| - 1])
  {
    var front := via[..|via| - 1];
    forall i | 0 <= i < |front| ensures Leads(tree, rule, End(start, front[..i]), front[i]) {
      assert front[..i] == via[..i];
    }
  }

  lemma ChainPush(tree: Tree, rule: Rule, start: string, via: seq<string>, next: string)
    requires tree.Valid() && IsChain(tree, rule, start, via) && Leads(tree, rule, End(start, via), next)
    ensures IsChain(tree, rule, start, via + [next])
  {
    var c := via + [next];
    forall i | 0 <= i < |c| ensures Leads(tree, rule, End(start, c[..i]), c[i]) {
      if i < |via| {
        assert c[..i] == via[..i];
      } else {
        assert c[..i] == via;
      }
    }
  }

  // ----- What a check reports -----

  datatype Visit = Visit(file: string, via: seq<string>)

  function Finding(rule: Rule, start: string, v: Visit, e: Edge): seq<Violation> {
    if Skipped(rule, e) then []
    else
      match Judge(rule, e, v.via == [])
      case None => []
      case Some(reason) => [Violation(rule.id, start, e.specifier, v.via, reason)]
  }

  function Findings(rule: Rule, start: string, v: Visit, edges: seq<Edge>): seq<Violation> {
    if edges == [] then []
    else Findings(rule, start, v, edges[..|edges| - 1]) + Finding(rule, start, v, edges[|edges| - 1])
  }

  /** The violations of the files visited, file by file, one per judged edge occurrence. */
  function Report(tree: Tree, rule: Rule, start: string, visits: seq<Visit>): seq<Violation>
    requires tree.Valid() && forall v :: v in visits ==> v.file in tree.files
  {
    if visits == [] then []
    else
      var last := visits[|visits| - 1];
      Report(tree, rule, start, visits[..|visits| - 1]) + Findings(rule, start, last, tree.imports[last.file])
  }

  predicate DistinctFiles(visits: seq<Visit>) {
    forall i, j :: 0 <= i < j < |visits| ==> visits[i].file != visits[j].file
  }

  predicate Visited(visits: seq<Visit>, file: string) {
    exists v :: v in visits && v.file == file
  }

  /** Every reachable file once, each with a shortest chain to it. */
  ghost predicate IsExactSearch(tree: Tree, rule: Rule, start: string, visits: seq<Visit>)
    requires tree.Valid()
  {
    && DistinctFiles(visits)
    && (forall v :: v in visits ==>
          v.file in tree.files && End(start, v.via) == v.file && IsShortest(tree, rule, start, v.via))
    && (forall file :: Reaches(tree, rule, start, file) ==> Visited(visits, file))
  }

  // ----- The search, part-way -----

  /** What has been found so far: `done` files searched, then `queue`, in order of distance. */
  ghost predicate Found(tree: Tree, rule: Rule, start: string, all: seq<Visit>)
    requires tree.Valid()
  {
    && all != [] && all[0] == Visit(start, [])
    && DistinctFiles(all)
    && (forall v :: v in all ==>
          v.file in tree.files && End(start, v.via) == v.file && IsShortest(tree, rule, start, v.via))
    && (forall i, j :: 0 <= i < j < |all| ==> |all[i].via| <= |all[j].via|)
  }

  /** Every import of the files searched leads to a file found. */
  ghost predicate Closed(tree: Tree, rule: Rule, all: seq<Visit>, done: nat)
    requires tree.Valid() && done <= |all|
  {
    forall i, b :: 0 <= i < done && Leads(tree, rule, all[i].file, b) ==> Visited(all, b)
  }

  /** A file found by a chain shorter than the next in line has been searched. */
  lemma NearerIsEarlier(tree: Tree, rule: Rule, start: string, all: seq<Visit>, done: nat, c: seq<string>)
    requires tree.Valid() && Found(tree, rule, start, all) && done < |all|
    requires IsChain(tree, rule, start, c) && |c| < |all[done].via| && Visited(all, End(start, c))
    ensures Searched(all, done, End(start, c))
  {
    hide IsChain, Leads;
    var v :| v in all && v.file == End(start, c);
    assert |v.via| <= |c|;
    var k :| 0 <= k < |all| && all[k] == v;
  }

  /** One of the first `done` files. */
  predicate Searched(all: seq<Visit>, done: nat, file: string)
    requires done <= |all|
  {
    exists i :: 0 <= i < done && all[i].file == file
  }

  lemma SearchedLeads(tree: Tree, rule: Rule, all: seq<Visit>, done: nat, a: string, b: string)
    requires tree.Valid() && done <= |all| && Closed(tree, rule, all, done)
    requires Searched(all, done, a) && Leads(tree, rule, a, b)
    ensures Visited(all, b)
  {
    var i :| 0 <= i < done && all[i].file == a;
  }

  /** Anything nearer than the file next in line has been searched. */
  lemma {:induction false} NearerIsDone(tree: Tree, rule: Rule, start: string, all: seq<Visit>, done: nat, c: seq<string>)
    requires tree.Valid() && Found(tree, rule, start, all) && done < |all| && Closed(tree, rule, all, done)
    requires IsChain(tree, rule, start, c) && |c| < |all[done].via|
    ensures Searched(all, done, End(start, c))
  {
    hide IsChain, Leads, Closed, Searched;
    if c == [] {
      assert all[0] in all;
    } else {
      var front := c[..|c| - 1];
      ChainFront(tree, rule, start, c);
      NearerIsDone(tree, rule, start, all, done, front);
      SearchedLeads(tree, rule, all, done, End(start, front), End(start, c));
    }
    NearerIsEarlier(tree, rule, start, all, done, c);
  }

  /** A file first met now is met by a shortest chain. */
  lemma {:induction false} NewIsShortest(tree: Tree, rule: Rule, start: string, all: seq<Visit>, done: nat, next: string)
    requires tree.Valid() && Found(tree, rule, start, all) && done < |all| && Closed(tree, rule, all, done)
    requires !Visited(all, next) && Leads(tree, rule, all[done].file, next)
    ensures IsShortest(tree, rule, start, all[done].via + [next])
  {
    hide Leads, Closed, Searched;
    var v := all[done];
    assert v in all;
    ChainPush(tree, rule, start, v.via, next);
    forall c | IsChain(tree, rule, start, c) && End(start, c) == next ensures |v.via| + 1 <= |c| {
      assert all[0] in all;
      if c != [] && |c| <= |v.via| {
        ChainFront(tree, rule, start, c);
        NearerIsDone(tree, rule, start, all, done, c[..|c| - 1]);
        SearchedLeads(tree, rule, all, done, End(start, c[..|c| - 1]), next);
      }
    }
  }

  /** When everything found has been searched, everything reachable has been found. */
  lemma {:induction false} AllReached(tree: Tree, rule: Rule, start: string, all: seq<Visit>, c: seq<string>)
    requires tree.Valid() && Found(tree, rule, start, all) && Closed(tree, rule, all, |all|)
    requires IsChain(tree, rule, start, c)
    ensures Visited(all, End(start, c))
  {
    hide IsChain, Leads, IsShortest;
    if c == [] {
      assert all[0] in all;
    } else {
      ChainFront(tree, rule, start, c);
      AllReached(tree, rule, start, all, c[..|c| - 1]);
      var v :| v in all && v.file == End(start, c[..|c| - 1]);
      var i :| 0 <= i < |all| && all[i] == v;
    }
  }

  /** A violation is reported exactly for each judged edge of each file visited, under its chain. */
  lemma {:induction false} ReportHolds(tree: Tree, rule: Rule, start: string, visits: seq<Visit>, x: Violation)
    requires tree.Valid() && forall v :: v in visits ==> v.file in tree.files
    ensures x in Report(tree, rule, start, visits)
       <==> exists v, e :: v in visits && e in tree.imports[v.file] && x in Finding(rule, start, v, e)
  {
    if visits != [] {
      var front, last := visits[..|visits| - 1], visits[|visits| - 1];
      assert visits == front + [last];
      ReportHolds(tree, rule, start, front, x);
      FindingsHold(rule, start, last, tree.imports[last.file], x);
    }
  }

  lemma {:induction false} FindingsHold(rule: Rule, start: string, v: Visit, edges: seq<Edge>, x: Violation)
    ensures x in Findings(rule, start, v, edges) <==> exists e :: e in edges && x in Finding(rule, start, v, e)
  {
    if edges != [] {
      assert edges == edges[..|edges| - 1] + [edges[|edges| - 1]];
      FindingsHold(rule, start, v, edges[..|edges| - 1], x);
    }
  }
}
