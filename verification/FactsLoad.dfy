/**
 * A document's rows brought into line with the candidates one parser version produces.
 *
 * A row under review and never decided is the parser's to reread, refresh or remove. A row
 * someone has decided is kept, with the decision as it stands.
 */
module FactsLoad {
  import opened Wrappers
  import opened Figures

  /** The identity of a candidate: a statement, and the reading it came from. */
  datatype CandidateId = CandidateId(statement: Identity, pageReading: Option<int>)

  datatype Box = Box(x0: int, y0: int, x1: int, y1: int)

  datatype Candidate = Candidate(
    what: CandidateId,
    state: string,
    reason: string,
    perUnit: Option<string>,
    box: Option<Box>,
    readingConfidence: Option<int>,
    extractionConfidence: int,
    extractionMethod: Option<string>
  )

  datatype Parser = Parser(version: string, extraction: string)

  datatype Status = Unverified | Verified | Corrected | Rejected

  datatype Review = Review(
    status: Status,
    reviewer: Option<string>,
    decidedAt: Option<string>,
    corrected: Option<string>,
    note: Option<string>
  )

  datatype Row = Row(
    id: int,
    what: CandidateId,
    review: Review,
    parserVersion: string,
    extractionMethod: string,
    extractionConfidence: int,
    state: Option<string>,
    reason: Option<string>,
    perUnit: Option<string>,
    box: Option<Box>,
    readingConfidence: Option<int>
  )

  const UNDECIDED := Review(Unverified, None, None, None, None)

  predicate IsDecided(row: Row) {
    row.review.status != Unverified
  }

  // ----- One candidate per identity -----

  /** The position of the candidate with this identity, if there is one. */
  function Find(cs: seq<Candidate>, what: CandidateId): (r: Option<nat>)
    ensures r.Some? ==> r.value < |cs| && cs[r.value].what == what
    ensures r.None? ==> forall i :: 0 <= i < |cs| ==> cs[i].what != what
  {
    if cs == [] then None
    else if cs[|cs| - 1].what == what then Some(|cs| - 1)
    else Find(cs[..|cs| - 1], what)
  }

  predicate DistinctCandidates(cs: seq<Candidate>) {
    forall i, j :: 0 <= i < j < |cs| ==> cs[i].what != cs[j].what
  }

  /** A candidate offered to those kept: the reading that states a denominator wins. */
  function Offer(kept: seq<Candidate>, c: Candidate): seq<Candidate> {
    match Find(kept, c.what)
    case None => kept + [c]
    case Some(i) => if kept[i].perUnit.None? && c.perUnit.Some? then kept[i := c] else kept
  }

  function Deduped(cs: seq<Candidate>): seq<Candidate> {
    if cs == [] then [] else Offer(Deduped(cs[..|cs| - 1]), cs[|cs| - 1])
  }

  /** The first candidate stating `what`, among those with a denominator when asked. */
  predicate IsFirst(cs: seq<Candidate>, i: nat, what: CandidateId, withUnit: bool) {
    && i < |cs| && cs[i].what == what && (withUnit ==> cs[i].perUnit.Some?)
    && forall j :: 0 <= j < i ==> !(cs[j].what == what && (withUnit ==> cs[j].perUnit.Some?))
  }

  /** Whether any candidate stating `what` carries a denominator. */
  predicate StatesUnit(cs: seq<Candidate>, what: CandidateId) {
    exists i :: 0 <= i < |cs| && cs[i].what == what && cs[i].perUnit.Some?
  }

  ghost predicate KeptFor(cs: seq<Candidate>, kept: Candidate) {
    exists i: nat :: IsFirst(cs, i, kept.what, StatesUnit(cs, kept.what)) && cs[i] == kept
  }

  /** What one offer does to those kept. */
  lemma OfferStep(kept: seq<Candidate>, c: Candidate)
    requires DistinctCandidates(kept)
    ensures var after := Offer(kept, c);
      && DistinctCandidates(after)
      && |kept| <= |after| <= |kept| + 1
      && (forall k :: 0 <= k < |kept| ==>
            after[k] == if kept[k].what == c.what && kept[k].perUnit.None? && c.perUnit.Some? then c else kept[k])
      && (|after| == |kept| + 1 ==> after[|kept|] == c && forall k :: 0 <= k < |kept| ==> kept[k].what != c.what)
      && Offers(after, c.what)
  {
  }

  predicate Offers(cs: seq<Candidate>, what: CandidateId) {
    exists k :: 0 <= k < |cs| && cs[k].what == what
  }

  lemma FirstOffered(front: seq<Candidate>, c: Candidate)
    requires !Offers(front, c.what)
    ensures KeptFor(front + [c], c)
  {
    var cs := front + [c];
    assert forall j :: 0 <= j < |front| ==> cs[j] == front[j];
    assert IsFirst(cs, |front|, c.what, StatesUnit(cs, c.what)) && cs[|front|] == c;
  }

  /**
   * Deduplication keeps one candidate per identity offered: the first that states a
   * denominator, or the first of all where none does.
   */
  lemma {:induction false} DedupeKeepsTheDenominator(cs: seq<Candidate>)
    ensures DistinctCandidates(Deduped(cs))
    ensures forall c :: c in cs ==> Offers(Deduped(cs), c.what)
    ensures forall k :: 0 <= k < |Deduped(cs)| ==> KeptFor(cs, Deduped(cs)[k])
  {
    hide Offer, KeptFor, Find;
    if cs != [] {
      var front, c := cs[..|cs| - 1], cs[|cs| - 1];
      assert cs == front + [c];
      DedupeKeepsTheDenominator(front);
      var before, after := Deduped(front), Deduped(cs);
      OfferStep(before, c);
      forall d | d in front ensures Offers(after, d.what) {
        var k :| 0 <= k < |before| && before[k].what == d.what;
        assert after[k].what == d.what;
      }
      forall k | 0 <= k < |after| ensures KeptFor(cs, after[k]) {
        if k < |before| {
          KeptGrows(front, c, before[k], after[k]);
        } else {
          NewlyOffered(front, c);
        }
      }
    }
  }

  lemma NewlyOffered(front: seq<Candidate>, c: Candidate)
    requires forall d :: d in front ==> Offers(Deduped(front), d.what)
    requires forall k :: 0 <= k < |Deduped(front)| ==> Deduped(front)[k].what != c.what
    ensures KeptFor(front + [c], c)
  {
    forall j | 0 <= j < |front| ensures front[j].what != c.what {
      assert front[j] in front;
    }
    FirstOffered(front, c);
  }

  lemma KeptGrows(front: seq<Candidate>, c: Candidate, before: Candidate, after: Candidate)
    requires KeptFor(front, before) && after.what == before.what
    requires after == if before.what == c.what && before.perUnit.None? && c.perUnit.Some? then c else before
    ensures KeptFor(front + [c], after)
  {
    var cs := front + [c];
    var i: nat :| IsFirst(front, i, before.what, StatesUnit(front, before.what)) && front[i] == before;
    assert forall j :: 0 <= j < |front| ==> cs[j] == front[j];
    if StatesUnit(front, before.what) {
      var j :| 0 <= j < |front| && front[j].what == before.what && front[j].perUnit.Some?;
      assert cs[j].perUnit.Some?;
      assert StatesUnit(cs, before.what);
      assert IsFirst(cs, i, after.what, true) && cs[i] == after;
    } else if before.what == c.what && c.perUnit.Some? {
      assert cs[|front|] == c;
      assert StatesUnit(cs, c.what);
      assert before.perUnit.None?;
      assert IsFirst(cs, |front|, c.what, true) && cs[|front|] == after;
    } else {
      assert !StatesUnit(cs, before.what);
      assert IsFirst(cs, i, after.what, false) && cs[i] == after;
    }
  }

  // ----- The load as a function -----

  function ReasonColumn(reason: string): Option<string> {
    if reason == "" then None else Some(reason)
  }

  function WithVerdict(row: Row, c: Candidate): Row {
    if row.state != Some(c.state) || row.perUnit != c.perUnit
    then row.(state := Some(c.state), reason := ReasonColumn(c.reason), perUnit := c.perUnit)
    else row
  }

  predicate GainsBox(row: Row, c: Candidate) {
    row.box.None? && c.box.Some?
  }

  predicate IsRefreshed(row: Row, p: Parser) {
    !IsDecided(row) && row.parserVersion != p.version
  }

  /** A held row brought into step with the candidate, without disturbing a decision. */
  function Reconciled(row: Row, c: Candidate, p: Parser): (r: Row)
    ensures r.id == row.id && r.what == row.what && r.review == row.review
  {
    var judged := WithVerdict(row, c).(readingConfidence := c.readingConfidence);
    var located := if GainsBox(row, c) then judged.(box := c.box) else judged;
    if IsRefreshed(row, p) then located.(parserVersion := p.version) else located
  }

  /** The new row of a candidate that no row states yet: undecided. */
  function Offered(c: Candidate, p: Parser, id: int): Row {
    Row(id, c.what, UNDECIDED, p.version,
        if c.extractionMethod.Some? then c.extractionMethod.value else p.extraction,
        c.extractionConfidence, Some(c.state), ReasonColumn(c.reason), c.perUnit, c.box, c.readingConfidence)
  }

  /** The row the loader keeps of those stating the same: the last one the database returned. */
  predicate IsHeld(rows: seq<Row>, i: nat)
    requires i < |rows|
  {
    forall j :: i < j < |rows| ==> rows[j].what != rows[i].what
  }

  predicate HasRow(rows: seq<Row>, what: CandidateId) {
    exists i :: 0 <= i < |rows| && rows[i].what == what
  }

  predicate IsStale(rows: seq<Row>, cs: seq<Candidate>, i: nat)
    requires i < |rows|
  {
    IsHeld(rows, i) && Find(cs, rows[i].what).None?
  }

  /** A row after every produced candidate has been seen, before anything is deleted. */
  function RowAfter(rows: seq<Row>, cs: seq<Candidate>, p: Parser, i: nat): Row
    requires i < |rows|
  {
    var k := Find(cs, rows[i].what);
    if IsHeld(rows, i) && k.Some? then Reconciled(rows[i], cs[k.value], p) else rows[i]
  }

  function RowsAfter(rows: seq<Row>, cs: seq<Candidate>, p: Parser): (r: seq<Row>)
    ensures |r| == |rows|
    ensures forall i :: 0 <= i < |rows| ==> r[i] == RowAfter(rows, cs, p, i)
  {
    seq(|rows|, i requires 0 <= i < |rows| => RowAfter(rows, cs, p, i))
  }

  predicate IsRetired(rows: seq<Row>, cs: seq<Candidate>, i: nat)
    requires i < |rows|
  {
    IsStale(rows, cs, i) && !IsDecided(rows[i])
  }

  function RetiredIds(rows: seq<Row>, cs: seq<Candidate>, n: nat): seq<int>
    requires n <= |rows|
  {
    if n == 0 then []
    else RetiredIds(rows, cs, n - 1) + (if IsRetired(rows, cs, n - 1) then [rows[n - 1].id] else [])
  }

  /** The rows that stay, of the first `n`, as the load leaves them. */
  function Kept(rows: seq<Row>, cs: seq<Candidate>, p: Parser, n: nat): seq<Row>
    requires n <= |rows|
  {
    if n == 0 then []
    else Kept(rows, cs, p, n - 1) + (if IsRetired(rows, cs, n - 1) then [] else [RowAfter(rows, cs, p, n - 1)])
  }

  /** The candidates no row states, of the first `n`, as new rows with fresh ids. */
  function New(rows: seq<Row>, cs: seq<Candidate>, p: Parser, next: int, n: nat): seq<Row>
    requires n <= |cs|
  {
    if n == 0 then []
    else
      var before := New(rows, cs, p, next, n - 1);
      before + (if HasRow(rows, cs[n - 1].what) then [] else [Offered(cs[n - 1], p, next + |before|)])
  }

  /** The document's rows after a load. */
  function Loaded(rows: seq<Row>, candidates: seq<Candidate>, p: Parser, next: int): seq<Row> {
    var cs := Deduped(candidates);
    Kept(rows, cs, p, |rows|) + New(rows, cs, p, next, |cs|)
  }

  datatype Counts = Counts(reviewed: nat, refreshed: nat, located: nat)

  function One(b: bool): nat {
    if b then 1 else 0
  }

  /** What reconciling the held rows of the first `n` candidates counts. */
  function Tally(rows: seq<Row>, cs: seq<Candidate>, p: Parser, n: nat): Counts
    requires n <= |cs|
  {
    if n == 0 then Counts(0, 0, 0) else Tallied(Tally(rows, cs, p, n - 1), HeldRow(rows, cs[n - 1].what), cs[n - 1], p)
  }

  function Tallied(t: Counts, held: Option<Row>, c: Candidate, p: Parser): Counts {
    match held
    case None => t
    case Some(row) =>
      Counts(t.reviewed + One(IsDecided(row)), t.refreshed + One(IsRefreshed(row, p)), t.located + One(GainsBox(row, c)))
  }

  /** The row held for an identity, as the loader's map gives it. */
  function HeldRow(rows: seq<Row>, what: CandidateId): (r: Option<Row>)
    ensures r.Some? <==> HasRow(rows, what)
    ensures r.Some? ==> exists i :: 0 <= i < |rows| && IsHeld(rows, i) && rows[i] == r.value && r.value.what == what
  {
    if rows == [] then None
    else if rows[|rows| - 1].what == what then
      assert IsHeld(rows, |rows| - 1);
      Some(rows[|rows| - 1])
    else
      var r := HeldRow(rows[..|rows| - 1], what);
      assert rows[..|rows| - 1] + [rows[|rows| - 1]] == rows;
      assert r.Some? ==> exists i :: 0 <= i < |rows| - 1 && IsHeld(rows[..|rows| - 1], i) && rows[i] == r.value && IsHeld(rows, i);
      r
  }

  datatype LoadResult = LoadResult(
    inserted: nat,
    skippedAlreadyReviewed: nat,
    retired: nat,
    strandedDecisions: nat,
    refreshed: nat,
    located: nat
  )

  function StrandedCount(rows: seq<Row>, cs: seq<Candidate>, n: nat): nat
    requires n <= |rows|
  {
    if n == 0 then 0
    else StrandedCount(rows, cs, n - 1) + if IsStale(rows, cs, n - 1) && IsDecided(rows[n - 1]) then 1 else 0
  }

  function ResultOf(rows: seq<Row>, candidates: seq<Candidate>, p: Parser, next: int): LoadResult {
    var cs := Deduped(candidates);
    var t := Tally(rows, cs, p, |cs|);
    LoadResult(
      |New(rows, cs, p, next, |cs|)|, t.reviewed,
      |RetiredIds(rows, cs, |rows|)|, StrandedCount(rows, cs, |rows|),
      t.refreshed, t.located)
  }
}
