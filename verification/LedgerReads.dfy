/**
 * Snapshot reads of the ledger, while loads go on committing.
 *
 * A read opens a transaction, takes the ledger's watermark as its first statement, which fixes
 * the snapshot, and hands its caller a queue over the one client. Loads may commit at any step,
 * queries may be issued at any step, and any of them may fail.
 */
module LedgerReads {
  import opened Wrappers

  // ----- The ledger and its watermark -----

  /** One load as it commits: the id of the version it opened, and when. */
  datatype Load = Load(id: nat, openedAt: int)

  datatype LedgerState = LedgerState(datasetVersion: nat, asOf: Option<int>)

  /** The row of the highest id, if any load has committed. */
  function Newest(db: seq<Load>): Option<Load> {
    if db == [] then None
    else
      var last, before := db[|db| - 1], Newest(db[..|db| - 1]);
      if before.Some? && before.value.id > last.id then before else Some(last)
  }

  function Watermark(db: seq<Load>): LedgerState {
    match Newest(db)
    case None => LedgerState(0, None)
    case Some(load) => LedgerState(load.id, Some(load.openedAt))
  }

  /** The version stated is the highest committed, and no less than any. */
  lemma {:induction false} WatermarkIsNewest(db: seq<Load>)
    ensures var w := Watermark(db);
      if db == [] then w == LedgerState(0, None)
      else
        && (exists i :: 0 <= i < |db| && w == LedgerState(db[i].id, Some(db[i].openedAt)))
        && (forall i :: 0 <= i < |db| ==> db[i].id <= w.datasetVersion)
  {
    if db != [] {
      var front := db[..|db| - 1];
      WatermarkIsNewest(front);
      if front != [] {
        var i :| 0 <= i < |front| && Watermark(front) == LedgerState(front[i].id, Some(front[i].openedAt));
        assert Watermark(front) == LedgerState(db[i].id, Some(db[i].openedAt));
      }
      assert Watermark(db) == Watermark(front) || Watermark(db) == LedgerState(db[|db| - 1].id, Some(db[|db| - 1].openedAt));
    }
  }

  /** Loads commit in the order their versions were opened. */
  ghost predicate InIdOrder(history: seq<Load>) {
    && (forall i :: 0 <= i < |history| ==> history[i].id > 0)
    && (forall i, j :: 0 <= i < j < |history| ==> history[i].id < history[j].id)
  }

  /** No two states the ledger passes through state the same version. */
  ghost predicate VersionNamesState(history: seq<Load>) {
    forall i, j :: 0 <= i < j <= |history| ==>
      Watermark(history[..i]).datasetVersion != Watermark(history[..j]).datasetVersion
  }

  lemma {:induction false} WatermarkGrows(history: seq<Load>, i: nat, j: nat)
    requires i <= j <= |history|
    ensures Watermark(history[..i]).datasetVersion <= Watermark(history[..j]).datasetVersion
    ensures i < j ==> history[i].id <= Watermark(history[..j]).datasetVersion
    decreases j
  {
    if i < j {
      assert history[..j][..j - 1] == history[..j - 1];
      WatermarkGrows(history, i, j - 1);
    }
  }

  lemma {:induction false} NextWatermark(history: seq<Load>, i: nat)
    requires i < |history|
    ensures var was, now := Watermark(history[..i]).datasetVersion, Watermark(history[..i + 1]).datasetVersion;
      now == if was > history[i].id then was else history[i].id
  {
    assert history[..i + 1][..i] == history[..i];
  }

  /**
   * Versions tell the ledger's states apart, and so serve as cache keys, exactly when loads
   * commit in the order they opened their versions. The ids come from a sequence, at opening.
   */
  lemma {:induction false} VersionIsAKeyExactlyInOrder(history: seq<Load>)
    ensures VersionNamesState(history) <==> InIdOrder(history)
  {
    if InIdOrder(history) {
      forall i, j | 0 <= i < j <= |history|
        ensures Watermark(history[..i]).datasetVersion != Watermark(history[..j]).datasetVersion
      {
        OrderedWatermark(history, i);
        WatermarkGrows(history, i, j);
      }
    }
    if VersionNamesState(history) {
      hide Watermark;
      forall j | 0 <= j < |history|
        ensures history[j].id > 0 && forall i :: 0 <= i < j ==> history[i].id < history[j].id
      {
        NextWatermark(history, j);
        assert Watermark(history[..j]).datasetVersion != Watermark(history[..j + 1]).datasetVersion;
        forall i | 0 <= i < j ensures history[i].id < history[j].id {
          WatermarkGrows(history, i, j);
        }
      }
    }
  }

  lemma {:induction false} OrderedWatermark(history: seq<Load>, i: nat)
    requires InIdOrder(history) && i < |history|
    ensures Watermark(history[..i]).datasetVersion < history[i].id
  {
    if i > 0 {
      OrderedWatermark(history, i - 1);
      NextWatermark(history, i - 1);
    }
  }

  /** Two loads committing out of order: the second changes the ledger and not the version. */
  lemma {:induction false} OutOfOrderLoadIsUnseen(first: Load, second: Load)
    requires 0 < second.id < first.id
    ensures var before, after := [first], [first, second];
      before != after && Watermark(before) == Watermark(after) && !VersionNamesState(after)
  {
    var history := [first, second];
    assert history[..1] == [first] && [first][..0] == [] && history[..2] == history;
    assert Newest([first]) == Some(first);
    assert Newest(history) == Some(first);
    assert Watermark(history[..1]).datasetVersion == Watermark(history[..2]).datasetVersion;
  }

  // ----- One read, step by step -----

  datatype Outcome = Rows(db: seq<Load>) | Failed | Refused

  /** `inSnapshot`: the query reached the client before the statement that ends the transaction. */
  datatype Progress = Waiting | Running(inSnapshot: bool) | Settled(inSnapshot: bool, outcome: Outcome)

  /** A query and the one whose end it waits for: the queue's tail when it was issued. */
  datatype Query = Query(after: Option<nat>, progress: Progress)

  /** `ok` is whether the caller's `read` resolved, and so whether COMMIT or ROLLBACK was sent. */
  datatype Phase = Connected | Begun | Reading | Ending(ok: bool) | Ended(ok: bool) | Released(ok: bool) | GaveUp

  datatype Reader = Reader(
    db: seq<Load>,
    phase: Phase,
    snapshot: seq<Load>,
    ledger: LedgerState,
    aborted: bool,
    queries: seq<Query>,
    tail: Option<nat>)

  datatype Step =
    | Commits(load: Load)
    | Begins
    | TakesWatermark
    | GivesUp
    | Issues
    | Starts(i: nat)
    | Settles(i: nat, fails: bool)
    | ReadSettles(ok: bool)
    | Ends(fails: bool)
    | Releases

  function Fresh(db: seq<Load>): Reader {
    Reader(db, Connected, [], LedgerState(0, None), false, [], None)
  }

  predicate IsSettled(s: Reader, i: nat) {
    i < |s.queries| && s.queries[i].progress.Settled?
  }

  predicate HandleIsOut(s: Reader) {
    s.phase.Reading? || s.phase.Ending? || s.phase.Ended? || s.phase.Released?
  }

  predicate Enabled(s: Reader, step: Step) {
    match step
    case Commits(_) => true
    case Begins => s.phase.Connected?
    case TakesWatermark => s.phase.Begun?
    case GivesUp => s.phase.Connected? || s.phase.Begun?
    case Issues => HandleIsOut(s)
    case Starts(i) =>
      && i < |s.queries| && s.queries[i].progress.Waiting?
      && (s.queries[i].after.Some? ==> IsSettled(s, s.queries[i].after.value))
    case Settles(i, _) =>
      // The client works through its statements in turn: one sent after the transaction's
      // last statement waits for it.
      && i < |s.queries| && s.queries[i].progress.Running?
      && (s.queries[i].progress.inSnapshot || s.phase.Ended? || s.phase.Released?)
    case ReadSettles(_) => s.phase.Reading?
    case Ends(_) => s.phase.Ending? && forall i :: 0 <= i < |s.queries| ==> s.queries[i].progress != Running(true)
    case Releases => s.phase.Ended?
  }

  function WithProgress(queries: seq<Query>, i: nat, p: Progress): (r: seq<Query>)
    requires i < |queries|
    ensures |r| == |queries|
  {
    queries[i := queries[i].(progress := p)]
  }

  /** What a query that ran gives back: the snapshot, or the ledger as it now stands outside one. */
  function OutcomeOf(s: Reader, inSnapshot: bool, fails: bool): Outcome {
    if inSnapshot && s.aborted then Refused
    else if fails then Failed
    else Rows(if inSnapshot then s.snapshot else s.db)
  }

  function Next(s: Reader, step: Step): Reader
    requires Enabled(s, step)
  {
    match step
    case Commits(load) => s.(db := s.db + [load])
    case Begins => s.(phase := Begun)
    case TakesWatermark => s.(phase := Reading, snapshot := s.db, ledger := Watermark(s.db))
    case GivesUp => s.(phase := GaveUp)
    case Issues => s.(queries := s.queries + [Query(s.tail, Waiting)], tail := Some(|s.queries|))
    case Starts(i) => s.(queries := WithProgress(s.queries, i, Running(s.phase.Reading?)))
    case Settles(i, fails) =>
      var inSnapshot := s.queries[i].progress.inSnapshot;
      var outcome := OutcomeOf(s, inSnapshot, fails);
      s.(queries := WithProgress(s.queries, i, Settled(inSnapshot, outcome)),
         aborted := s.aborted || (inSnapshot && !outcome.Rows?))
    case ReadSettles(ok) => s.(phase := Ending(ok))
    case Ends(fails) => s.(phase := if s.phase.ok && fails then Ending(false) else Ended(s.phase.ok))
    case Releases => s.(phase := Released(s.phase.ok))
  }

  predicate IsRun(s: Reader, steps: seq<Step>)
    decreases |steps|
  {
    steps == [] || (Enabled(s, steps[0]) && IsRun(Next(s, steps[0]), steps[1..]))
  }

  function After(s: Reader, steps: seq<Step>): Reader
    requires IsRun(s, steps)
    decreases |steps|
  {
    if steps == [] then s else After(Next(s, steps[0]), steps[1..])
  }

  // ----- What every step keeps -----

  /** One query at a time, in the order issued. */
  ghost predicate InTurn(s: Reader) {
    && (s.tail == if s.queries == [] then None else Some(|s.queries| - 1))
    && (forall i :: 0 <= i < |s.queries| ==> s.queries[i].after == if i == 0 then None else Some(i - 1))
    && (forall i, j :: 0 <= i < j < |s.queries| && !s.queries[i].progress.Settled? ==> s.queries[j].progress.Waiting?)
  }

  /** The watermark describes the snapshot, which is a state the ledger has been in. */
  ghost predicate SnapshotIsDescribed(s: Reader) {
    HandleIsOut(s) ==> s.snapshot <= s.db && s.ledger == Watermark(s.snapshot)
  }

  predicate SettledInside(s: Reader, i: nat) {
    IsSettled(s, i) && s.queries[i].progress.inSnapshot
  }

  function OutcomeAt(s: Reader, i: nat): Outcome
    requires IsSettled(s, i)
  {
    s.queries[i].progress.outcome
  }

  /** Whatever ran inside the transaction saw the snapshot, or failed, or was turned away. */
  ghost predicate SeesTheSnapshot(s: Reader) {
    forall i :: SettledInside(s, i) && OutcomeAt(s, i).Rows? ==> OutcomeAt(s, i) == Rows(s.snapshot)
  }

  /** After one failure inside the transaction, every query after it in there is refused. */
  ghost predicate FailureAborts(s: Reader) {
    && (forall i :: SettledInside(s, i) && !OutcomeAt(s, i).Rows? ==> s.aborted)
    && (forall i, j :: i < j && SettledInside(s, i) && SettledInside(s, j) && !OutcomeAt(s, i).Rows? ==>
          OutcomeAt(s, j) == Refused)
  }

  /** No query is out before the read begins, or outside the snapshot before it ends. */
  ghost predicate OutsideOnlyAfter(s: Reader) {
    && (!HandleIsOut(s) ==> s.queries == [])
    && (s.phase.Reading? ==>
          forall i :: 0 <= i < |s.queries| ==> s.queries[i].progress.Waiting? || s.queries[i].progress.inSnapshot)
    && (s.phase.Ended? || s.phase.Released? ==>
          forall i :: 0 <= i < |s.queries| ==> s.queries[i].progress != Running(true))
  }

  ghost predicate Sound(s: Reader) {
    InTurn(s) && SnapshotIsDescribed(s) && SeesTheSnapshot(s) && FailureAborts(s) && OutsideOnlyAfter(s)
  }

  lemma {:induction false} StepKeepsTurns(s: Reader, step: Step)
    requires InTurn(s) && Enabled(s, step)
    ensures InTurn(Next(s, step))
  {
  }

  lemma SettledStays(s: Reader, step: Step, i: nat)
    requires Enabled(s, step) && (step.Settles? ==> step.i != i)
    ensures SettledInside(Next(s, step), i) <==> SettledInside(s, i)
    ensures SettledInside(s, i) ==> OutcomeAt(Next(s, step), i) == OutcomeAt(s, i)
  {
  }

  lemma {:induction false} StepKeepsDescription(s: Reader, step: Step)
    requires SnapshotIsDescribed(s) && OutsideOnlyAfter(s) && Enabled(s, step)
    ensures SnapshotIsDescribed(Next(s, step)) && OutsideOnlyAfter(Next(s, step))
  {
    hide Watermark;
  }

  /** The first watermark is taken before any query is out. */
  lemma {:induction false} StepKeepsOutcomes(s: Reader, step: Step)
    requires Sound(s) && Enabled(s, step) && !step.Settles?
    ensures SeesTheSnapshot(Next(s, step)) && FailureAborts(Next(s, step))
  {
    var t := Next(s, step);
    forall i: nat ensures (SettledInside(t, i) <==> SettledInside(s, i))
      && (SettledInside(s, i) ==> OutcomeAt(t, i) == OutcomeAt(s, i))
    {
      SettledStays(s, step, i);
    }
    assert t.aborted == s.aborted;
    assert t.snapshot == s.snapshot || s.queries == [];
    hide Next, InTurn, SnapshotIsDescribed, OutsideOnlyAfter, OutcomeAt, Enabled;
  }

  lemma {:induction false} SettlingKeepsOutcomes(s: Reader, n: nat, fails: bool)
    requires Sound(s) && Enabled(s, Settles(n, fails))
    ensures SeesTheSnapshot(Next(s, Settles(n, fails))) && FailureAborts(Next(s, Settles(n, fails)))
  {
    var t := Next(s, Settles(n, fails));
    forall i: nat | i != n ensures (SettledInside(t, i) <==> SettledInside(s, i))
      && (SettledInside(s, i) ==> OutcomeAt(t, i) == OutcomeAt(s, i))
    {
      SettledStays(s, Settles(n, fails), i);
    }
    var inside := s.queries[n].progress.inSnapshot;
    assert OutcomeAt(t, n) == OutcomeOf(s, inside, fails) && (SettledInside(t, n) <==> inside);
    assert t.aborted == (s.aborted || (inside && !OutcomeAt(t, n).Rows?));
    assert forall j: nat :: n < j ==> !SettledInside(s, j);
    assert t.snapshot == s.snapshot;
    hide Next, InTurn, SnapshotIsDescribed, OutsideOnlyAfter, OutcomeAt, Enabled, SettledInside, IsSettled;
  }

  lemma {:induction false} StepIsSound(s: Reader, step: Step)
    requires Sound(s) && Enabled(s, step)
    ensures Sound(Next(s, step))
  {
    StepKeepsTurns(s, step);
    StepKeepsDescription(s, step);
    if step.Settles? {
      SettlingKeepsOutcomes(s, step.i, step.fails);
    } else {
      StepKeepsOutcomes(s, step);
    }
    hide Next, Enabled, InTurn, SnapshotIsDescribed, SeesTheSnapshot, FailureAborts, OutsideOnlyAfter;
  }

  /** In every interleaving of loads, queries and failures. */
  lemma {:induction false} EveryRunIsSound(s: Reader, steps: seq<Step>)
    requires Sound(s) && IsRun(s, steps)
    ensures Sound(After(s, steps))
    decreases |steps|
  {
    if steps != [] {
      StepIsSound(s, steps[0]);
      EveryRunIsSound(Next(s, steps[0]), steps[1..]);
    }
  }

  // ----- What that gives a reader -----

  predicate IsRunning(s: Reader, i: nat) {
    i < |s.queries| && s.queries[i].progress.Running?
  }

  /**
   * Every query started before `read` settled, and so every one settled by then, gave the state
   * whose watermark the response states, if it gave rows at all; that state is one the ledger
   * has been in. At most one query runs at a time, and they settle in the order issued.
   */
  lemma {:induction false} ReadsAreConsistent(db: seq<Load>, steps: seq<Step>)
    requires IsRun(Fresh(db), steps)
    ensures var s := After(Fresh(db), steps);
      && (HandleIsOut(s) ==> s.ledger == Watermark(s.snapshot) && s.snapshot <= s.db)
      && (forall i :: SettledInside(s, i) && OutcomeAt(s, i).Rows? ==> OutcomeAt(s, i) == Rows(s.snapshot))
      && (s.phase.Reading? ==> forall i :: IsSettled(s, i) ==> SettledInside(s, i))
      && (forall i, j :: IsRunning(s, i) && IsRunning(s, j) ==> i == j)
      && (forall i, j :: i < j && IsSettled(s, j) ==> IsSettled(s, i))
  {
    EveryRunIsSound(Fresh(db), steps);
  }

  /**
   * A query started after `read` has settled is not inside the snapshot: once the transaction
   * has ended, a load and that query's own end are enough for it to return another state than
   * the one the response is labelled with.
   */
  lemma {:induction false} LateQueryEscapes(s: Reader, i: nat, load: Load)
    requires Sound(s) && (s.phase.Ended? || s.phase.Released?)
    requires i < |s.queries| && s.queries[i].progress.Running?
    ensures var steps := [Commits(load), Settles(i, false)];
      && IsRun(s, steps)
      && IsSettled(After(s, steps), i)
      && OutcomeAt(After(s, steps), i) == Rows(s.db + [load])
      && s.snapshot < s.db + [load]
  {
    var steps := [Commits(load), Settles(i, false)];
    var t := Next(s, steps[0]);
    assert steps[1..] == [Settles(i, false)] && steps[1..][1..] == [];
    assert Enabled(t, steps[1]);
    assert IsRun(Next(t, steps[1]), []);
    assert IsRun(t, steps[1..]);
    assert After(t, steps[1..]) == Next(t, steps[1]);
  }

  /** And such a query exists: issued while reading, still waiting when `read` settles. */
  lemma LateQueryExists()
    ensures var steps := [Begins, TakesWatermark, Issues, ReadSettles(true), Starts(0), Ends(false)];
      && IsRun(Fresh([]), steps)
      && After(Fresh([]), steps).phase == Ended(true)
      && |After(Fresh([]), steps).queries| == 1
      && After(Fresh([]), steps).queries[0].progress == Running(false)
  {
    var s0 := Fresh([]);
    var s1 := Next(s0, Begins);
    var s2 := Next(s1, TakesWatermark);
    var s3 := Next(s2, Issues);
    var s4 := Next(s3, ReadSettles(true));
    var s5 := Next(s4, Starts(0));
    var s6 := Next(s5, Ends(false));
    RunAhead(s5, Ends(false), []);
    RunAhead(s4, Starts(0), [Ends(false)]);
    RunAhead(s3, ReadSettles(true), [Starts(0), Ends(false)]);
    RunAhead(s2, Issues, [ReadSettles(true), Starts(0), Ends(false)]);
    RunAhead(s1, TakesWatermark, [Issues, ReadSettles(true), Starts(0), Ends(false)]);
    RunAhead(s0, Begins, [TakesWatermark, Issues, ReadSettles(true), Starts(0), Ends(false)]);
    assert [Begins] + [TakesWatermark, Issues, ReadSettles(true), Starts(0), Ends(false)]
        == [Begins, TakesWatermark, Issues, ReadSettles(true), Starts(0), Ends(false)];
  }

  lemma RunAhead(s: Reader, step: Step, steps: seq<Step>)
    requires Enabled(s, step) && IsRun(Next(s, step), steps)
    ensures IsRun(s, [step] + steps) && After(s, [step] + steps) == After(Next(s, step), steps)
  {
    assert ([step] + steps)[1..] == steps;
  }

  // ----- What each query gets -----

  /** A query inside the transaction that was settled and is one that failed. */
  ghost predicate FailedInside(s: Reader, done: seq<Step>, i: nat) {
    SettledInside(s, i) && Settles(i, true) in done
  }

  /** The outcome of a query inside: refused after one that failed, and else its own. */
  ghost predicate IsItsOwn(s: Reader, done: seq<Step>, i: nat)
    requires IsSettled(s, i)
  {
    OutcomeAt(s, i) ==
      if exists j: nat :: j < i && FailedInside(s, done, j) then Refused
      else if Settles(i, true) in done then Failed
      else Rows(s.snapshot)
  }

  ghost predicate OutcomesTold(s: Reader, done: seq<Step>) {
    && (forall i, fails :: Settles(i, fails) in done ==> IsSettled(s, i))
    && (s.aborted <==> exists i: nat :: FailedInside(s, done, i))
    && (forall i :: SettledInside(s, i) ==> IsItsOwn(s, done, i))
  }

  /** A step that settles nothing leaves every outcome as it was. */
  lemma {:induction false} OtherStepTells(s: Reader, done: seq<Step>, step: Step)
    requires Sound(s) && OutcomesTold(s, done) && Enabled(s, step) && !step.Settles?
    ensures OutcomesTold(Next(s, step), done + [step])
  {
    var t, more := Next(s, step), done + [step];
    forall i: nat ensures (SettledInside(t, i) <==> SettledInside(s, i))
      && (SettledInside(s, i) ==> OutcomeAt(t, i) == OutcomeAt(s, i))
      && (IsSettled(s, i) ==> IsSettled(t, i))
    {
      SettledStays(s, step, i);
    }
    assert t.aborted == s.aborted;
    assert t.snapshot == s.snapshot || s.queries == [];
    assert forall i, fails :: Settles(i, fails) in more <==> Settles(i, fails) in done;
    assert forall i: nat :: FailedInside(t, more, i) <==> FailedInside(s, done, i);
    hide Next, InTurn, SnapshotIsDescribed, OutsideOnlyAfter, OutcomeAt, Enabled, SeesTheSnapshot, FailureAborts, FailedInside;
  }

  lemma {:induction false} SettlingTells(s: Reader, done: seq<Step>, n: nat, fails: bool)
    requires Sound(s) && OutcomesTold(s, done) && Enabled(s, Settles(n, fails))
    ensures OutcomesTold(Next(s, Settles(n, fails)), done + [Settles(n, fails)])
  {
    var step := Settles(n, fails);
    var t, more := Next(s, step), done + [step];
    forall i: nat | i != n ensures (SettledInside(t, i) <==> SettledInside(s, i))
      && (SettledInside(s, i) ==> OutcomeAt(t, i) == OutcomeAt(s, i))
      && (IsSettled(s, i) <==> IsSettled(t, i))
    {
      SettledStays(s, step, i);
    }
    var inside := s.queries[n].progress.inSnapshot;
    assert !IsSettled(s, n) && IsSettled(t, n) && (SettledInside(t, n) <==> inside);
    assert OutcomeAt(t, n) == OutcomeOf(s, inside, fails);
    assert t.aborted == (s.aborted || (inside && !OutcomeAt(t, n).Rows?));
    assert forall j: nat :: SettledInside(s, j) ==> j < n;
    assert t.snapshot == s.snapshot;
    assert forall i, f :: Settles(i, f) in more <==> Settles(i, f) in done || (i == n && f == fails);
    assert forall f :: Settles(n, f) !in done;
    hide Next, InTurn, SnapshotIsDescribed, OutsideOnlyAfter, OutcomeAt, Enabled, SeesTheSnapshot, FailureAborts;
    assert forall j: nat :: FailedInside(t, more, j) <==> FailedInside(s, done, j) || (j == n && inside && fails);
    hide SettledInside, IsSettled;
    OutcomesAfter(s, t, done, more, n, inside, fails);
  }

  lemma OutcomesAfter(s: Reader, t: Reader, done: seq<Step>, more: seq<Step>, n: nat, inside: bool, fails: bool)
    requires OutcomesTold(s, done) && !IsSettled(s, n) && IsSettled(t, n) && t.snapshot == s.snapshot
    requires SettledInside(t, n) <==> inside
    requires OutcomeAt(t, n) == OutcomeOf(s, inside, fails)
    requires t.aborted == (s.aborted || (inside && !OutcomeAt(t, n).Rows?))
    requires forall i: nat | i != n ::
      && (SettledInside(t, i) <==> SettledInside(s, i)) && (IsSettled(s, i) <==> IsSettled(t, i))
      && (SettledInside(s, i) ==> OutcomeAt(t, i) == OutcomeAt(s, i))
    requires forall j: nat :: SettledInside(s, j) ==> j < n
    requires forall i, f :: Settles(i, f) in more <==> Settles(i, f) in done || (i == n && f == fails)
    requires forall j: nat :: FailedInside(t, more, j) <==> FailedInside(s, done, j) || (j == n && inside && fails)
    ensures OutcomesTold(t, more)
  {
    hide SettledInside, IsSettled, OutcomeAt;
    assert s.aborted <==> exists j: nat :: j < n && FailedInside(s, done, j) by {
      assert forall j: nat :: FailedInside(s, done, j) ==> SettledInside(s, j);
    }
    hide FailedInside;
    if s.aborted {
      var j: nat :| j < n && FailedInside(s, done, j);
      assert FailedInside(t, more, j);
    }
    assert inside && fails ==> FailedInside(t, more, n);
    assert t.aborted <==> exists j: nat :: FailedInside(t, more, j);
    assert s.aborted <==> exists j: nat :: j < n && FailedInside(t, more, j);
    forall i: nat | SettledInside(t, i) ensures IsSettled(t, i) && IsItsOwn(t, more, i) {
      InsideIsSettled(t, i);
      if i != n {
        InsideIsSettled(s, i);
        assert IsItsOwn(s, done, i);
        assert forall j: nat | j < i :: FailedInside(t, more, j) <==> FailedInside(s, done, j);
      }
    }
  }

  lemma InsideIsSettled(s: Reader, i: nat)
    requires SettledInside(s, i)
    ensures IsSettled(s, i)
  {
  }

  lemma {:induction false} RunTellsOutcomes(s: Reader, done: seq<Step>, steps: seq<Step>)
    requires Sound(s) && OutcomesTold(s, done) && IsRun(s, steps)
    ensures OutcomesTold(After(s, steps), done + steps)
    decreases |steps|
  {
    hide OutcomesTold, Sound;
    if steps == [] {
      assert done + steps == done;
    } else {
      StepIsSound(s, steps[0]);
      if steps[0].Settles? {
        SettlingTells(s, done, steps[0].i, steps[0].fails);
      } else {
        OtherStepTells(s, done, steps[0]);
      }
      RunTellsOutcomes(Next(s, steps[0]), done + [steps[0]], steps[1..]);
      assert done + [steps[0]] + steps[1..] == done + steps;
    }
  }

  /**
   * Each caller gets its own query's outcome: started before `read` settled, a query gives the
   * snapshot's rows unless it fails itself or one before it did, and after a failure every later
   * one is refused.
   */
  lemma {:induction false} EachGetsItsOwn(db: seq<Load>, steps: seq<Step>, i: nat)
    requires IsRun(Fresh(db), steps) && SettledInside(After(Fresh(db), steps), i)
    ensures var s := After(Fresh(db), steps);
      OutcomeAt(s, i) ==
        if exists j: nat :: j < i && SettledInside(s, j) && Settles(j, true) in steps then Refused
        else if Settles(i, true) in steps then Failed
        else Rows(s.snapshot)
  {
    RunTellsOutcomes(Fresh(db), [], steps);
    assert [] + steps == steps;
    var s := After(Fresh(db), steps);
    assert forall j: nat :: FailedInside(s, steps, j) <==> SettledInside(s, j) && Settles(j, true) in steps;
    assert IsItsOwn(s, steps, i);
    hide FailedInside, After, IsRun;
  }

  // ----- When a read is answered -----

  /** The first statement sent to end the transaction, and whether it failed. */
  function FirstEnd(steps: seq<Step>): Option<bool> {
    if steps == [] then None
    else if FirstEnd(steps[..|steps| - 1]).Some? then FirstEnd(steps[..|steps| - 1])
    else if steps[|steps| - 1].Ends? then Some(steps[|steps| - 1].fails)
    else None
  }

  /** What has been done, as the phase tells it. */
  ghost predicate PhaseTells(s: Reader, done: seq<Step>) {
    && (ReadSettles(true) in done ==> !(ReadSettles(false) in done))
    && match s.phase
       case Ending(ok) =>
         if ok then ReadSettles(true) in done && FirstEnd(done) == None
         else if ReadSettles(true) in done then FirstEnd(done) == Some(true)
         else ReadSettles(false) in done && FirstEnd(done) == None
       case Ended(ok) => EndsSo(ok, done)
       case Released(ok) => EndsSo(ok, done)
       case _ => ReadSettles(true) !in done && ReadSettles(false) !in done && FirstEnd(done) == None
  }

  ghost predicate EndsSo(ok: bool, done: seq<Step>) {
    && (ok <==> ReadSettles(true) in done && FirstEnd(done) == Some(false))
    && FirstEnd(done).Some?
  }

  lemma FirstEndPush(done: seq<Step>, step: Step)
    ensures FirstEnd(done + [step]) ==
      if FirstEnd(done).Some? then FirstEnd(done) else if step.Ends? then Some(step.fails) else None
  {
    assert (done + [step])[..|done|] == done;
  }

  lemma {:induction false} StepTells(s: Reader, done: seq<Step>, step: Step)
    requires PhaseTells(s, done) && Enabled(s, step)
    ensures PhaseTells(Next(s, step), done + [step])
  {
    FirstEndPush(done, step);
    hide FirstEnd;
    assert forall x :: x in done + [step] <==> x in done || x == step;
  }

  lemma {:induction false} RunTells(s: Reader, done: seq<Step>, steps: seq<Step>)
    requires PhaseTells(s, done) && IsRun(s, steps)
    ensures PhaseTells(After(s, steps), done + steps)
    decreases |steps|
  {
    hide PhaseTells;
    if steps == [] {
      assert done + steps == done;
    } else {
      StepTells(s, done, steps[0]);
      RunTells(Next(s, steps[0]), done + [steps[0]], steps[1..]);
      assert done + [steps[0]] + steps[1..] == done + steps;
    }
  }

  /** The first of the statements that end the transaction, by position. */
  ghost predicate EndsFirstAt(steps: seq<Step>, k: nat) {
    k < |steps| && steps[k].Ends? && forall j :: 0 <= j < k ==> !steps[j].Ends?
  }

  lemma {:induction false} FirstEndIs(steps: seq<Step>)
    ensures forall k: nat :: EndsFirstAt(steps, k) ==> FirstEnd(steps) == Some(steps[k].fails)
    ensures FirstEnd(steps).Some? ==> exists k: nat :: EndsFirstAt(steps, k)
  {
    if steps != [] {
      var front := steps[..|steps| - 1];
      FirstEndIs(front);
      if FirstEnd(front).Some? {
        var k: nat :| EndsFirstAt(front, k);
        assert EndsFirstAt(steps, k);
      } else if steps[|steps| - 1].Ends? {
        forall j | 0 <= j < |front| ensures !front[j].Ends? {
          if front[j].Ends? {
            NoneBeforeTheFirst(front, j);
          }
        }
        assert EndsFirstAt(steps, |steps| - 1);
      }
      forall k: nat | EndsFirstAt(steps, k) ensures FirstEnd(steps) == Some(steps[k].fails) {
        if k < |front| {
          assert EndsFirstAt(front, k);
        }
      }
    }
  }

  lemma {:induction false} NoneBeforeTheFirst(steps: seq<Step>, j: nat)
    requires j < |steps| && steps[j].Ends?
    ensures exists k: nat :: EndsFirstAt(steps, k)
  {
    if i :| 0 <= i < j && steps[i].Ends? {
      NoneBeforeTheFirst(steps, i);
    } else {
      assert EndsFirstAt(steps, j);
    }
  }

  /**
   * A read that is over was answered exactly when its caller's `read` resolved and the COMMIT then
   * sent went through: a COMMIT that fails is followed by a ROLLBACK, which answers nothing.
   */
  lemma {:induction false} AnsweredExactly(db: seq<Load>, steps: seq<Step>)
    requires IsRun(Fresh(db), steps)
    requires After(Fresh(db), steps).phase.Released?
    ensures After(Fresh(db), steps).phase.ok <==>
      ReadSettles(true) in steps && exists k: nat :: EndsFirstAt(steps, k) && !steps[k].fails
    ensures exists k: nat :: EndsFirstAt(steps, k)
  {
    RunTells(Fresh(db), [], steps);
    assert [] + steps == steps;
    FirstEndIs(steps);
  }

  lemma {:induction false} StaysGivenUp(s: Reader, steps: seq<Step>)
    requires s.phase.GaveUp? && s.queries == [] && IsRun(s, steps)
    ensures After(s, steps).phase.GaveUp? && After(s, steps).queries == []
    decreases |steps|
  {
    if steps != [] {
      StaysGivenUp(Next(s, steps[0]), steps[1..]);
    }
  }

  lemma {:induction false} GivingUpIsFinal(s: Reader, steps: seq<Step>)
    requires Sound(s) && IsRun(s, steps) && GivesUp in steps
    ensures After(s, steps).phase.GaveUp? && After(s, steps).queries == []
    decreases |steps|
  {
    if steps[0].GivesUp? {
      StaysGivenUp(Next(s, steps[0]), steps[1..]);
    } else {
      StepIsSound(s, steps[0]);
      GivingUpIsFinal(Next(s, steps[0]), steps[1..]);
    }
  }

  /**
   * A read may fail at any point before its caller is handed anything; it then hands out nothing,
   * runs no query, and is never answered.
   */
  lemma {:induction false} FailedStartIsFinal(db: seq<Load>, steps: seq<Step>)
    requires IsRun(Fresh(db), steps)
    ensures var s := After(Fresh(db), steps);
      && (GivesUp in steps ==> s.phase.GaveUp? && s.queries == [])
      && (GivesUp !in steps && !HandleIsOut(s) ==> Enabled(s, GivesUp))
  {
    if GivesUp in steps {
      GivingUpIsFinal(Fresh(db), steps);
    } else {
      GivenUpByGivingUp(Fresh(db), steps);
    }
  }

  lemma {:induction false} GivenUpByGivingUp(s: Reader, steps: seq<Step>)
    requires IsRun(s, steps) && GivesUp !in steps && !s.phase.GaveUp?
    ensures !After(s, steps).phase.GaveUp?
    decreases |steps|
  {
    if steps != [] {
      assert steps[0] in steps;
      GivenUpByGivingUp(Next(s, steps[0]), steps[1..]);
    }
  }

  // ----- Nothing stalls -----

  function Weight(queries: seq<Query>): nat {
    if queries == [] then 0
    else
      Weight(queries[..|queries| - 1]) +
      match queries[|queries| - 1].progress
      case Waiting => 2
      case Running(_) => 1
      case Settled(_, _) => 0
  }

  /** How far a read is from having every query settled: the ending statement may have to be tried twice. */
  function Distance(s: Reader): nat {
    Weight(s.queries) + match s.phase
    case Ending(ok) => if ok then 2 else 1
    case _ => 0
  }

  /**
   * Neither a failed query nor the statement that ends the transaction holds up the rest: whenever
   * one is unsettled, some query can start or settle or that statement can end, and doing so brings
   * the read nearer to every query's having settled.
   */
  lemma {:induction false} NothingStalls(s: Reader, fails: bool) returns (step: Step)
    requires Sound(s) && HandleIsOut(s)
    requires exists i :: 0 <= i < |s.queries| && !s.queries[i].progress.Settled?
    ensures step.Starts? || (step.Settles? && step.fails == fails) || (step.Ends? && step.fails == fails)
    ensures Enabled(s, step) && HandleIsOut(Next(s, step)) && Distance(Next(s, step)) < Distance(s)
  {
    var n := FirstUnsettled(s.queries);
    var p := s.queries[n].progress;
    if s.phase.Ending? && p != Running(true) {
      step := Ends(fails);
    } else if p.Waiting? {
      step := Starts(n);
      WeightFalls(s.queries, n, Running(s.phase.Reading?));
    } else {
      step := Settles(n, fails);
      WeightFalls(s.queries, n, Settled(p.inSnapshot, OutcomeOf(s, p.inSnapshot, fails)));
    }
  }

  lemma {:induction false} FirstUnsettled(queries: seq<Query>) returns (n: nat)
    requires exists i :: 0 <= i < |queries| && !queries[i].progress.Settled?
    ensures n < |queries| && !queries[n].progress.Settled?
    ensures forall i :: 0 <= i < n ==> queries[i].progress.Settled?
  {
    n := 0;
    while queries[n].progress.Settled?
      invariant n < |queries|
      invariant forall i :: 0 <= i < n ==> queries[i].progress.Settled?
      decreases |queries| - n
    {
      n := n + 1;
    }
  }

  lemma {:induction false} WeightFalls(queries: seq<Query>, n: nat, p: Progress)
    requires n < |queries|
    requires (queries[n].progress.Waiting? && p.Running?) || (queries[n].progress.Running? && p.Settled?)
    ensures Weight(WithProgress(queries, n, p)) < Weight(queries)
  {
    var m := |queries| - 1;
    if n < m {
      WeightFalls(queries[..m], n, p);
      assert WithProgress(queries, n, p)[..m] == WithProgress(queries[..m], n, p);
    } else {
      assert WithProgress(queries, n, p)[..m] == queries[..m];
    }
  }

  /** Every query issued in time gets an outcome, whichever of them fail. */
  lemma {:induction false} EveryQueryCanSettle(s: Reader, failing: set<nat>) returns (steps: seq<Step>)
    requires Sound(s) && HandleIsOut(s)
    ensures IsRun(s, steps)
    ensures forall i :: 0 <= i < |s.queries| ==> IsSettled(After(s, steps), i)
    ensures |After(s, steps).queries| == |s.queries|
    decreases Distance(s)
  {
    hide Sound, Distance;
    if exists i :: 0 <= i < |s.queries| && !s.queries[i].progress.Settled? {
      var n := FirstUnsettled(s.queries);
      var step := NothingStalls(s, n in failing);
      StepIsSound(s, step);
      var rest := EveryQueryCanSettle(Next(s, step), failing);
      RunAhead(s, step, rest);
      steps := [step] + rest;
    } else {
      steps := [];
    }
  }
}
