/**
 * The plan of a report's refresh: the statements after which its two sides agree.
 *
 * The plan is first given as a function of the two sides; the loops the program
 * runs are methods proved to compute it.
 */
module RefreshPlan {
  import opened Wrappers
  import opened Figures

  datatype Update = Update(targetId: int, columns: Carried)
  datatype Link = Link(figure: Key, sameAs: Option<Key>)
  datatype KeyedHistory = KeyedHistory(figure: Key, row: History)

  datatype Plan = Plan(
    insert: seq<Fact>,
    update: seq<Update>,
    retire: seq<int>,
    stranded: nat,
    history: seq<KeyedHistory>,
    links: seq<Link>,
    scanSkipped: nat
  )

  // ----- The plan as a function -----

  /** Source figures read from the text layer: the ones a refresh carries. */
  function TextFacts(facts: seq<Fact>): (r: seq<Fact>)
    ensures |r| <= |facts|
  {
    if facts == [] then [] else TextFacts(facts[..|facts| - 1]) + TextFact(facts[|facts| - 1])
  }

  function TextFact(f: Fact): seq<Fact> {
    if FromScan(f) then [] else [f]
  }

  lemma {:induction false} TextMembers(facts: seq<Fact>)
    ensures forall f :: f in TextFacts(facts) <==> f in facts && !FromScan(f)
  {
    hide Count, IndexOf;
    if facts != [] {
      TextMembers(facts[..|facts| - 1]);
      assert facts == facts[..|facts| - 1] + [facts[|facts| - 1]];
    }
  }

  /** The columns of a source row that the target row holds differently. */
  function Differing(s: Carried, t: Carried): (diff: Carried)
    ensures forall c :: c in diff <==> Cell(s, c) != Cell(t, c)
    ensures forall c :: c in diff ==> diff[c] == Cell(s, c)
  {
    map c: Column | Cell(s, c) != Cell(t, c) :: Cell(s, c)
  }

  /** The target row a source figure is matched to. */
  function Match(source: seq<Fact>, target: seq<Fact>, i: nat): (r: Option<nat>)
    requires i < |source|
    ensures r.Some? ==> r.value < |target|
    ensures r.Some? ==> KeyAt(Identities(target), r.value) == KeyAt(Identities(source), i)
  {
    var key := KeyAt(Identities(source), i);
    if HasKey(Identities(target), key) then Some(IndexOf(Identities(target), key)) else None
  }

  /** A figure's link, as the key of the row it points at; none without one, or where it leaves the report. */
  function LinkOf(fact: Fact, facts: seq<Fact>): Option<Key> {
    match fact.sameFigureAs
    case None => None
    case Some(id) => KeyOfId(facts, id)
  }

  function LinkHeld(target: seq<Fact>, m: Option<nat>): Option<Key>
    requires m.Some? ==> m.value < |target|
  {
    if m.None? then None else LinkOf(target[m.value], target)
  }

  function InsertFor(source: seq<Fact>, target: seq<Fact>, i: nat): seq<Fact>
    requires i < |source|
  {
    if Match(source, target, i).None? then [source[i]] else []
  }

  function Inserts(source: seq<Fact>, target: seq<Fact>, n: nat): seq<Fact>
    requires n <= |source|
  {
    if n == 0 then [] else Inserts(source, target, n - 1) + InsertFor(source, target, n - 1)
  }

  function UpdateFor(source: seq<Fact>, target: seq<Fact>, i: nat): seq<Update>
    requires i < |source|
  {
    match Match(source, target, i)
    case None => []
    case Some(j) =>
      var diff := Differing(source[i].carried, target[j].carried);
      if diff == map[] then [] else [Update(target[j].id, diff)]
  }

  function Updates(source: seq<Fact>, target: seq<Fact>, n: nat): seq<Update>
    requires n <= |source|
  {
    if n == 0 then [] else Updates(source, target, n - 1) + UpdateFor(source, target, n - 1)
  }

  function LinkFor(source: seq<Fact>, target: seq<Fact>, i: nat): seq<Link>
    requires i < |source|
  {
    var wanted := LinkOf(source[i], source);
    if wanted != LinkHeld(target, Match(source, target, i))
    then [Link(KeyAt(Identities(source), i), wanted)]
    else []
  }

  function Links(source: seq<Fact>, target: seq<Fact>, n: nat): seq<Link>
    requires n <= |source|
  {
    if n == 0 then [] else Links(source, target, n - 1) + LinkFor(source, target, n - 1)
  }

  /** A target figure the source no longer has. */
  predicate Unmatched(source: seq<Fact>, target: seq<Fact>, j: nat)
    requires j < |target|
  {
    !HasKey(Identities(source), KeyAt(Identities(target), j))
  }

  function RetireFor(source: seq<Fact>, target: seq<Fact>, j: nat): seq<int>
    requires j < |target|
  {
    if Unmatched(source, target, j) && !Decided(target[j]) then [target[j].id] else []
  }

  function Retires(source: seq<Fact>, target: seq<Fact>, n: nat): seq<int>
    requires n <= |target|
  {
    if n == 0 then [] else Retires(source, target, n - 1) + RetireFor(source, target, n - 1)
  }

  function StrandedFor(source: seq<Fact>, target: seq<Fact>, j: nat): nat
    requires j < |target|
  {
    if Unmatched(source, target, j) && Decided(target[j]) then 1 else 0
  }

  function Stranded(source: seq<Fact>, target: seq<Fact>, n: nat): nat
    requires n <= |target|
  {
    if n == 0 then 0 else Stranded(source, target, n - 1) + StrandedFor(source, target, n - 1)
  }

  /** Whether the target holds this decision under the figure with this key. */
  ghost predicate HoldsDecision(target: FactSide, key: Key, d: Decision) {
    exists h :: h in target.history && h.decision == d && KeyOfId(target.facts, h.factId) == Some(key)
  }

  ghost function MissingFor(text: seq<Fact>, target: FactSide, h: History): seq<KeyedHistory> {
    match KeyOfId(text, h.factId)
    case None => []
    case Some(key) =>
      if HoldsDecision(target, key, h.decision) then [] else [KeyedHistory(key, h)]
  }

  ghost function Missing(text: seq<Fact>, target: FactSide, history: seq<History>): seq<KeyedHistory> {
    if history == [] then []
    else Missing(text, target, history[..|history| - 1]) + MissingFor(text, target, history[|history| - 1])
  }

  ghost function PlanOf(source: FactSide, target: FactSide): Plan {
    var text := TextFacts(source.facts);
    var facts := target.facts;
    Plan(Inserts(text, facts, |text|), Updates(text, facts, |text|),
         Retires(text, facts, |facts|), Stranded(text, facts, |facts|),
         Missing(text, target, source.history), Links(text, facts, |text|),
         |source.facts| - |text|)
  }

  predicate IsSettled(plan: Plan) {
    plan.insert == [] && plan.update == [] && plan.retire == [] && plan.history == [] && plan.links == []
  }

  // ----- What a settled plan means -----

  /** The source figure at `i` is in the target, reads the same and points at the same figure. */
  ghost predicate Carries(text: seq<Fact>, target: seq<Fact>, i: nat)
    requires i < |text|
  {
    var m := Match(text, target, i);
    && m.Some?
    && SameCarried(text[i].carried, target[m.value].carried)
    && LinkOf(text[i], text) == LinkOf(target[m.value], target)
  }

  /**
   * The target agrees with the source: every text figure of the source is there with its
   * decision and its link, nothing undecided is there that the source lacks, and every
   * decision the source superseded is kept under its figure.
   */
  ghost predicate Agrees(source: FactSide, target: FactSide) {
    var text := TextFacts(source.facts);
    && CarriesUpTo(text, target.facts, |text|)
    && (forall j :: 0 <= j < |target.facts| ==>
          !Unmatched(text, target.facts, j) || Decided(target.facts[j]))
    && (forall h :: h in source.history && KeyOfId(text, h.factId).Some? ==>
          HoldsDecision(target, KeyOfId(text, h.factId).value, h.decision))
  }

  /** A plan is empty exactly when the two sides already agree. */
  lemma {:induction false} SettledMeansAgrees(source: FactSide, target: FactSide)
    ensures IsSettled(PlanOf(source, target)) <==> Agrees(source, target)
  {
    hide Count, IndexOf;
    var text := TextFacts(source.facts);
    SettledRows(text, target.facts, |text|);
    SettledRetires(text, target.facts, |target.facts|);
    SettledHistory(text, target, source.history);
  }

  ghost predicate CarriesUpTo(text: seq<Fact>, target: seq<Fact>, n: nat)
    requires n <= |text|
  {
    forall i :: 0 <= i < n ==> Carries(text, target, i)
  }

  lemma {:induction false} SettledRows(text: seq<Fact>, target: seq<Fact>, n: nat)
    requires n <= |text|
    ensures |Inserts(text, target, n)| + |Updates(text, target, n)| + |Links(text, target, n)| == 0
       <==> CarriesUpTo(text, target, n)
  {
    hide Count, IndexOf, InsertFor, UpdateFor, LinkFor, Carries, Match;
    if n > 0 {
      SettledRows(text, target, n - 1);
      SettledRow(text, target, n - 1);
      assert CarriesUpTo(text, target, n) <==> CarriesUpTo(text, target, n - 1) && Carries(text, target, n - 1);
    }
  }

  lemma SettledRow(text: seq<Fact>, target: seq<Fact>, i: nat)
    requires i < |text|
    ensures |InsertFor(text, target, i)| + |UpdateFor(text, target, i)| + |LinkFor(text, target, i)| == 0
       <==> Carries(text, target, i)
  {
    hide Count, IndexOf;
    var m := Match(text, target, i);
    if m.Some? {
      var diff := Differing(text[i].carried, target[m.value].carried);
      assert diff == map[] <==> forall c :: c !in diff;
    }
  }

  lemma SettledRetires(text: seq<Fact>, target: seq<Fact>, n: nat)
    requires n <= |target|
    ensures Retires(text, target, n) == []
       <==> forall j :: 0 <= j < n ==> !Unmatched(text, target, j) || Decided(target[j])
  {
    hide Count, IndexOf;
  }

  lemma SettledHistory(text: seq<Fact>, target: FactSide, history: seq<History>)
    ensures Missing(text, target, history) == []
       <==> forall h :: h in history && KeyOfId(text, h.factId).Some? ==>
              HoldsDecision(target, KeyOfId(text, h.factId).value, h.decision)
  {
    hide Count, IndexOf;
    if history != [] {
      assert history == history[..|history| - 1] + [history[|history| - 1]];
      SettledHistory(text, target, history[..|history| - 1]);
    }
  }

  // ----- Counts: nothing is lost between the lists of a plan -----

  function MatchedCount(source: seq<Fact>, target: seq<Fact>, n: nat): nat
    requires n <= |source|
  {
    if n == 0 then 0
    else MatchedCount(source, target, n - 1) + if Match(source, target, n - 1).Some? then 1 else 0
  }

  function UnmatchedCount(source: seq<Fact>, target: seq<Fact>, n: nat): nat
    requires n <= |target|
  {
    if n == 0 then 0
    else UnmatchedCount(source, target, n - 1) + if Unmatched(source, target, n - 1) then 1 else 0
  }

  /** Every source figure is skipped, matched or inserted; every unmatched one is retired or stranded. */
  lemma {:induction false} PlanAccountsForEveryFigure(source: FactSide, target: FactSide)
    ensures var p := PlanOf(source, target);
      var text := TextFacts(source.facts);
      && |source.facts| == p.scanSkipped + MatchedCount(text, target.facts, |text|) + |p.insert|
      && UnmatchedCount(text, target.facts, |target.facts|) == |p.retire| + p.stranded
  {
    hide Count, IndexOf;
    var text := TextFacts(source.facts);
    InsertsSplit(text, target.facts, |text|);
    RetiresSplit(text, target.facts, |target.facts|);
  }

  lemma InsertsSplit(source: seq<Fact>, target: seq<Fact>, n: nat)
    requires n <= |source|
    ensures |Inserts(source, target, n)| + MatchedCount(source, target, n) == n
  {
    hide Count, IndexOf;
  }

  lemma RetiresSplit(source: seq<Fact>, target: seq<Fact>, n: nat)
    requires n <= |target|
    ensures |Retires(source, target, n)| + Stranded(source, target, n) == UnmatchedCount(source, target, n)
  {
    hide Count, IndexOf;
  }
}
