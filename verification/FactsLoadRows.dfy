/** What a load leaves, row by row and count by count, said of the rows and candidates themselves. */
module FactsLoadRows {
  import opened Wrappers
  import opened FactsLoad
  import opened FactsLoadHolds

  // ----- New rows -----

  /** A row nobody has reviewed, as this candidate and parser give it. */
  predicate IsNewRowOf(r: Row, c: Candidate, p: Parser) {
    && r.what == c.what
    && r.review.status == Unverified && r.review.reviewer == None && r.review.decidedAt == None
    && r.review.corrected == None && r.review.note == None
    && r.state == Some(c.state) && r.perUnit == c.perUnit && r.box == c.box
    && r.reason == (if c.reason == "" then None else Some(c.reason))
    && r.readingConfidence == c.readingConfidence && r.extractionConfidence == c.extractionConfidence
    && r.extractionMethod == (match c.extractionMethod case Some(m) => m case None => p.extraction)
    && r.parserVersion == p.version
  }

  /** The candidate that speaks for its identity. */
  ghost predicate SpeaksFor(candidates: seq<Candidate>, c: Candidate) {
    c in candidates && KeptFor(candidates, c)
  }

  lemma KeptIsOffered(candidates: seq<Candidate>, c: Candidate)
    requires KeptFor(candidates, c)
    ensures c in candidates
  {
    var i: nat :| IsFirst(candidates, i, c.what, StatesUnit(candidates, c.what)) && candidates[i] == c;
  }

  lemma {:induction false} DedupedSpeak(candidates: seq<Candidate>, k: nat)
    requires k < |Deduped(candidates)|
    ensures SpeaksFor(candidates, Deduped(candidates)[k])
  {
    hide KeptFor;
    DedupeKeepsTheDenominator(candidates);
    KeptIsOffered(candidates, Deduped(candidates)[k]);
  }

  /** An identity offered that no row states gets one row: new, undecided and as its candidate says. */
  lemma {:induction false} OfferedGetsARow(rows: seq<Row>, candidates: seq<Candidate>, p: Parser, next: int, what: CandidateId)
    returns (k: nat, c: Candidate)
    requires Offers(candidates, what) && !HasRow(rows, what)
    ensures var after := Loaded(rows, candidates, p, next);
      && k < |after| && after[k].id >= next && after[k].what == what
      && SpeaksFor(candidates, c) && IsNewRowOf(after[k], c, p)
      && forall l :: 0 <= l < |after| && after[l].what == what ==> l == k
  {
    hide Deduped, Kept, New, SpeaksFor, RowAfter, IsRetired;
    var cs := Deduped(candidates);
    var after := Loaded(rows, candidates, p, next);
    var m := |Kept(rows, cs, p, |rows|)|;
    DedupedOffers(candidates, what);
    var i :| 0 <= i < |cs| && cs[i].what == what;
    NewHas(rows, cs, p, next, |cs|, i);
    var n :| 0 <= n < |New(rows, cs, p, next, |cs|)| && New(rows, cs, p, next, |cs|)[n].what == what;
    k := m + n;
    var o := NewOrigin(rows, cs, p, next, |cs|, n);
    c := cs[o];
    DedupedSpeak(candidates, o);
    DedupeKeepsTheDenominator(candidates);
    forall l | 0 <= l < |after| && after[l].what == what ensures l == k {
      if l < m {
        KeptIsARow(rows, cs, p, l);
      } else if l - m < n {
        NewAreDistinct(rows, cs, p, next, l - m, n);
      } else if n < l - m {
        NewAreDistinct(rows, cs, p, next, n, l - m);
      }
    }
  }

  lemma KeptIsARow(rows: seq<Row>, cs: seq<Candidate>, p: Parser, k: nat)
    requires k < |Kept(rows, cs, p, |rows|)|
    ensures HasRow(rows, Kept(rows, cs, p, |rows|)[k].what)
    ensures exists r :: r in rows && r.id == Kept(rows, cs, p, |rows|)[k].id
  {
    hide IsRetired;
    var i := KeptOrigin(rows, cs, p, |rows|, k);
    assert rows[i] in rows;
  }

  /** And every row with a new id is such a row. */
  lemma {:induction false} EveryNewRowIsOffered(rows: seq<Row>, candidates: seq<Candidate>, p: Parser, next: int, r: Row)
    returns (c: Candidate)
    requires forall was :: was in rows ==> was.id < next
    requires r in Loaded(rows, candidates, p, next) && r.id >= next
    ensures SpeaksFor(candidates, c) && !HasRow(rows, c.what) && IsNewRowOf(r, c, p)
  {
    hide Deduped, Kept, New, SpeaksFor, RowAfter, IsRetired, HasRow;
    var cs := Deduped(candidates);
    var after := Loaded(rows, candidates, p, next);
    var m := |Kept(rows, cs, p, |rows|)|;
    var k :| 0 <= k < |after| && after[k] == r;
    if k < m {
      KeptIsARow(rows, cs, p, k);
      assert false;
    } else {
      var o := NewOrigin(rows, cs, p, next, |cs|, k - m);
      c := cs[o];
      DedupedSpeak(candidates, o);
    }
  }

  // ----- Rows held before -----

  /** What a held row becomes when it is produced again: what review owns stays. */
  predicate IsHeldRowOf(r: Row, was: Row, c: Candidate, p: Parser) {
    && r.id == was.id && r.what == was.what && r.review == was.review
    && r.extractionMethod == was.extractionMethod && r.extractionConfidence == was.extractionConfidence
    && r.state == Some(c.state) && r.perUnit == c.perUnit && r.readingConfidence == c.readingConfidence
    && r.box == (if was.box.None? then c.box else was.box)
    && r.parserVersion == (if was.review.status == Unverified then p.version else was.parserVersion)
    && r.reason == (if was.state == Some(c.state) && was.perUnit == c.perUnit then was.reason
                    else if c.reason == "" then None else Some(c.reason))
  }

  /**
   * Of the rows of an identity the last is held: produced again, it stays and becomes what its
   * candidate makes of it; no longer produced, it goes if nobody decided it. No other row is touched.
   */
  lemma {:induction false} RowBecomes(rows: seq<Row>, candidates: seq<Candidate>, p: Parser, next: int, i: nat)
    requires i < |rows|
    requires forall j, k :: 0 <= j < k < |rows| ==> rows[j].id != rows[k].id
    requires forall was :: was in rows ==> was.id < next
    ensures var after, held := Loaded(rows, candidates, p, next), forall j :: i < j < |rows| ==> rows[j].what != rows[i].what;
      if held && Offers(candidates, rows[i].what) then
        exists r, c :: r in after && SpeaksFor(candidates, c) && c.what == rows[i].what && IsHeldRowOf(r, rows[i], c, p)
      else if held && rows[i].review.status == Unverified then forall r :: r in after ==> r.id != rows[i].id
      else rows[i] in after
  {
    hide Deduped, Kept, New, SpeaksFor, Offers;
    var cs := Deduped(candidates);
    var after := Loaded(rows, candidates, p, next);
    FindMeansOffers(cs, rows[i].what);
    DedupedOffers(candidates, rows[i].what);
    if IsRetired(rows, cs, i) {
      forall r | r in after ensures r.id != rows[i].id {
        RetiredIsGone(rows, candidates, p, next, i, r);
      }
    } else {
      KeptHas(rows, cs, p, |rows|, i);
      var r := RowAfter(rows, cs, p, i);
      if IsHeld(rows, i) && Find(cs, rows[i].what).Some? {
        var k := Find(cs, rows[i].what).value;
        DedupedSpeak(candidates, k);
        assert IsHeldRowOf(r, rows[i], cs[k], p);
      }
    }
  }

  lemma RetiredIsGone(rows: seq<Row>, candidates: seq<Candidate>, p: Parser, next: int, i: nat, r: Row)
    requires i < |rows| && IsRetired(rows, Deduped(candidates), i) && r in Loaded(rows, candidates, p, next)
    requires forall j, k :: 0 <= j < k < |rows| ==> rows[j].id != rows[k].id
    requires forall was :: was in rows ==> was.id < next
    ensures r.id != rows[i].id
  {
    hide Deduped, Kept, New, IsRetired, Reconciled;
    var cs := Deduped(candidates);
    var after := Loaded(rows, candidates, p, next);
    var m := |Kept(rows, cs, p, |rows|)|;
    var k :| 0 <= k < |after| && after[k] == r;
    assert rows[i] in rows;
    if k < m {
      var j := KeptOrigin(rows, cs, p, |rows|, k);
    } else {
      var o := NewOrigin(rows, cs, p, next, |cs|, k - m);
    }
  }

  // ----- The counts -----

  predicate IsLast(rows: seq<Row>, i: nat)
    requires i < |rows|
  {
    forall j :: i < j < |rows| ==> rows[j].what != rows[i].what
  }

  ghost function Whats(cs: seq<Candidate>): set<CandidateId> {
    set c | c in cs :: c.what
  }

  ghost function NotHeld(rows: seq<Row>, cs: seq<Candidate>): set<CandidateId> {
    set w | w in Whats(cs) && !HasRow(rows, w)
  }

  /** The held rows these candidates produce, decided or not. */
  ghost function HeldAndDecided(rows: seq<Row>, cs: seq<Candidate>): set<nat> {
    set i: nat | i < |rows| && IsLast(rows, i) && rows[i].what in Whats(cs) && rows[i].review.status != Unverified
  }

  ghost function HeldAndOld(rows: seq<Row>, cs: seq<Candidate>, p: Parser): set<nat> {
    set i: nat | i < |rows| && IsLast(rows, i) && rows[i].what in Whats(cs)
                 && rows[i].review.status == Unverified && rows[i].parserVersion != p.version
  }

  ghost function HeldAndLocated(rows: seq<Row>, boxed: set<CandidateId>): set<nat> {
    set i: nat | i < |rows| && IsLast(rows, i) && rows[i].what in boxed && rows[i].box.None?
  }

  ghost function Boxed(cs: seq<Candidate>): set<CandidateId> {
    set c | c in cs && c.box.Some? :: c.what
  }

  /** The held rows the candidates no longer produce. */
  ghost function HeldAndStale(rows: seq<Row>, cs: seq<Candidate>, decided: bool): set<nat> {
    set i: nat | i < |rows| && IsLast(rows, i) && rows[i].what !in Whats(cs)
                 && (rows[i].review.status != Unverified) == decided
  }

  lemma WhatsPush(cs: seq<Candidate>, c: Candidate)
    ensures Whats(cs + [c]) == Whats(cs) + {c.what}
    ensures Boxed(cs + [c]) == Boxed(cs) + if c.box.Some? then {c.what} else {}
  {
    assert c in cs + [c];
    assert forall d :: d in cs + [c] <==> d in cs || d == c;
  }

  lemma OneMore<T>(before: set<T>, after: set<T>, x: T, counts: bool)
    requires x !in before && forall y :: y in after <==> y in before || (counts && y == x)
    ensures |after| == |before| + One(counts)
  {
    assert after == before + if counts then {x} else {};
  }

  lemma {:induction false} NewCount(rows: seq<Row>, cs: seq<Candidate>, p: Parser, next: int, n: nat)
    requires n <= |cs| && DistinctCandidates(cs)
    ensures |New(rows, cs, p, next, n)| == |NotHeld(rows, cs[..n])|
  {
    hide HasRow, Offered;
    if n == 0 {
      assert NotHeld(rows, cs[..0]) == {};
    } else {
      NewCount(rows, cs, p, next, n - 1);
      var c, front, more := cs[n - 1], cs[..n - 1], cs[..n];
      assert more == front + [c];
      WhatsPush(front, c);
      assert c.what !in Whats(front);
      hide Whats, DistinctCandidates;
      OneMore(NotHeld(rows, front), NotHeld(rows, more), c.what, !HasRow(rows, c.what));
    }
  }

  lemma {:induction false} HeldRowIsLast(rows: seq<Row>, what: CandidateId) returns (i: nat)
    requires HeldRow(rows, what).Some?
    ensures i < |rows| && IsLast(rows, i) && rows[i] == HeldRow(rows, what).value && rows[i].what == what
    ensures forall j :: 0 <= j < |rows| && IsLast(rows, j) && rows[j].what == what ==> j == i
  {
    hide HeldRow;
    i :| i < |rows| && IsHeld(rows, i) && rows[i] == HeldRow(rows, what).value && rows[i].what == what;
  }

  lemma NoneProduced(rows: seq<Row>, p: Parser)
    ensures HeldAndDecided(rows, []) == {} && HeldAndOld(rows, [], p) == {} && HeldAndLocated(rows, Boxed([])) == {}
  {
  }

  lemma {:induction false} TallyCounts(rows: seq<Row>, cs: seq<Candidate>, p: Parser, n: nat)
    requires n <= |cs| && DistinctCandidates(cs)
    ensures var t := Tally(rows, cs, p, n);
      && t.reviewed == |HeldAndDecided(rows, cs[..n])|
      && t.refreshed == |HeldAndOld(rows, cs[..n], p)|
      && t.located == |HeldAndLocated(rows, Boxed(cs[..n]))|
  {
    hide HeldAndDecided, HeldAndOld, HeldAndLocated, Boxed, HeldRow, IsDecided, IsRefreshed, GainsBox;
    if n == 0 {
      NoneProduced(rows, p);
      assert cs[..0] == [];
    } else {
      TallyCounts(rows, cs, p, n - 1);
      TallyNext(rows, cs, p, n - 1);
      hide DistinctCandidates, One;
      assert Tally(rows, cs, p, n) == FactsLoad.Tallied(Tally(rows, cs, p, n - 1), HeldRow(rows, cs[n - 1].what), cs[n - 1], p);
    }
  }

  lemma {:induction false} TallyNext(rows: seq<Row>, cs: seq<Candidate>, p: Parser, n: nat)
    requires n < |cs| && DistinctCandidates(cs)
    ensures var c, held, front, more := cs[n], HeldRow(rows, cs[n].what), cs[..n], cs[..n + 1];
      && |HeldAndDecided(rows, more)| == |HeldAndDecided(rows, front)| + One(held.Some? && IsDecided(held.value))
      && |HeldAndOld(rows, more, p)| == |HeldAndOld(rows, front, p)| + One(held.Some? && IsRefreshed(held.value, p))
      && |HeldAndLocated(rows, Boxed(more))| ==
           |HeldAndLocated(rows, Boxed(front))| + One(held.Some? && GainsBox(held.value, c))
  {
    var c, held, front, more := cs[n], HeldRow(rows, cs[n].what), cs[..n], cs[..n + 1];
    assert more == front + [c];
    WhatsPush(front, c);
    assert c.what !in Whats(front) && c.what !in Boxed(front);
    hide Whats, Boxed, HeldRow, DistinctCandidates;
    // A position no row has stands for the row that is not there.
    var i := |rows|;
    if held.Some? {
      i := HeldRowIsLast(rows, c.what);
    }
    assert forall j :: 0 <= j < |rows| && IsLast(rows, j) && rows[j].what == c.what ==> j == i;
    hide IsLast;
    OneMore(HeldAndDecided(rows, front), HeldAndDecided(rows, more), i, held.Some? && IsDecided(held.value));
    OneMore(HeldAndOld(rows, front, p), HeldAndOld(rows, more, p), i, held.Some? && IsRefreshed(held.value, p));
    OneMore(HeldAndLocated(rows, Boxed(front)), HeldAndLocated(rows, Boxed(more)), i, held.Some? && GainsBox(held.value, c));
  }

  ghost function StaleUpTo(rows: seq<Row>, cs: seq<Candidate>, decided: bool, n: nat): set<nat>
    requires n <= |rows|
  {
    set i: nat | i < n && IsStale(rows, cs, i) && IsDecided(rows[i]) == decided
  }

  lemma {:induction false} StaleCounts(rows: seq<Row>, cs: seq<Candidate>, n: nat)
    requires n <= |rows|
    ensures |RetiredIds(rows, cs, n)| == |StaleUpTo(rows, cs, false, n)|
    ensures StrandedCount(rows, cs, n) == |StaleUpTo(rows, cs, true, n)|
  {
    hide IsStale, IsDecided;
    if n > 0 {
      StaleCounts(rows, cs, n - 1);
      var goes, strands := IsRetired(rows, cs, n - 1), IsStale(rows, cs, n - 1) && IsDecided(rows[n - 1]);
      OneMore(StaleUpTo(rows, cs, false, n - 1), StaleUpTo(rows, cs, false, n), n - 1, goes);
      OneMore(StaleUpTo(rows, cs, true, n - 1), StaleUpTo(rows, cs, true, n), n - 1, strands);
    }
  }

  lemma WhatsAreOffered(cs: seq<Candidate>, what: CandidateId)
    ensures what in Whats(cs) <==> Offers(cs, what)
  {
    if what in Whats(cs) {
      var c :| c in cs && c.what == what;
      var k :| 0 <= k < |cs| && cs[k] == c;
    }
    if Offers(cs, what) {
      var k :| 0 <= k < |cs| && cs[k].what == what;
      assert cs[k] in cs;
    }
  }

  /** The identities whose candidate, of those offered, has a box. */
  ghost function SpokenWithABox(candidates: seq<Candidate>): set<CandidateId> {
    set c | c in candidates && SpeaksFor(candidates, c) && c.box.Some? :: c.what
  }

  lemma {:induction false} BoxedAreSpoken(candidates: seq<Candidate>)
    ensures Boxed(Deduped(candidates)) == SpokenWithABox(candidates)
    ensures Whats(Deduped(candidates)) == Whats(candidates)
  {
    hide Deduped, SpeaksFor;
    var cs := Deduped(candidates);
    forall what ensures what in Whats(cs) <==> what in Whats(candidates) {
      WhatsAreOffered(cs, what);
      WhatsAreOffered(candidates, what);
      DedupedOffers(candidates, what);
    }
    forall what ensures what in Boxed(cs) <==> what in SpokenWithABox(candidates) {
      if what in Boxed(cs) {
        var c :| c in cs && c.box.Some? && c.what == what;
        var k :| 0 <= k < |cs| && cs[k] == c;
        DedupedSpeak(candidates, k);
        SpeakerIsOffered(candidates, c);
      }
      if what in SpokenWithABox(candidates) {
        var c :| c in candidates && SpeaksFor(candidates, c) && c.box.Some? && c.what == what;
        var k := SpeakerIsDeduped(candidates, c);
        assert cs[k] in cs;
      }
    }
  }

  lemma SpeakerIsOffered(candidates: seq<Candidate>, c: Candidate)
    requires SpeaksFor(candidates, c)
    ensures c in candidates
  {
  }

  lemma {:induction false} SpeakerIsDeduped(candidates: seq<Candidate>, c: Candidate) returns (k: nat)
    requires SpeaksFor(candidates, c)
    ensures k < |Deduped(candidates)| && Deduped(candidates)[k] == c
  {
    hide Deduped;
    WhatsAreOffered(candidates, c.what);
    assert c.what in Whats(candidates);
    DedupedOffers(candidates, c.what);
    k :| k < |Deduped(candidates)| && Deduped(candidates)[k].what == c.what;
    DedupedSpeak(candidates, k);
    var d := Deduped(candidates)[k];
    var i: nat :| IsFirst(candidates, i, c.what, StatesUnit(candidates, c.what)) && candidates[i] == c;
    var j: nat :| IsFirst(candidates, j, d.what, StatesUnit(candidates, d.what)) && candidates[j] == d;
    assert i == j;
  }

  /** Every count a load reports, as the number of rows or identities it is about. */
  lemma {:induction false} CountsAreOf(rows: seq<Row>, candidates: seq<Candidate>, p: Parser, next: int)
    ensures var r := ResultOf(rows, candidates, p, next);
      && r.inserted == |NotHeld(rows, candidates)|
      && r.skippedAlreadyReviewed == |HeldAndDecided(rows, candidates)|
      && r.refreshed == |HeldAndOld(rows, candidates, p)|
      && r.located == |HeldAndLocated(rows, SpokenWithABox(candidates))|
      && r.retired == |HeldAndStale(rows, candidates, false)|
      && r.strandedDecisions == |HeldAndStale(rows, candidates, true)|
  {
    hide Deduped, New, Tally, RetiredIds, StrandedCount, HasRow, Whats, Boxed, SpokenWithABox, HeldAndLocated;
    var cs := Deduped(candidates);
    DedupeKeepsTheDenominator(candidates);
    assert cs[..|cs|] == cs;
    NewCount(rows, cs, p, next, |cs|);
    TallyCounts(rows, cs, p, |cs|);
    StaleCounts(rows, cs, |rows|);
    BoxedAreSpoken(candidates);
    StaleIsStale(rows, candidates, false);
    StaleIsStale(rows, candidates, true);
    hide HeldAndStale, StaleUpTo;
  }

  lemma StaleIsStale(rows: seq<Row>, candidates: seq<Candidate>, decided: bool)
    ensures StaleUpTo(rows, Deduped(candidates), decided, |rows|) == HeldAndStale(rows, candidates, decided)
  {
    hide Deduped, Whats;
    forall i: nat | i < |rows|
      ensures IsStale(rows, Deduped(candidates), i) <==> IsLast(rows, i) && rows[i].what !in Whats(candidates)
    {
      FindMeansOffers(Deduped(candidates), rows[i].what);
      DedupedOffers(candidates, rows[i].what);
      WhatsAreOffered(candidates, rows[i].what);
    }
    hide IsStale, IsLast;
  }
}
