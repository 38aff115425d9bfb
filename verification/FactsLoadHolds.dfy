/** What a load promises: convergence, decisions respected, and where duplicates break it. */
module FactsLoadHolds {
  import opened Wrappers
  import opened Figures
  import opened FactsLoad

  /** No two rows state the same thing from the same reading. */
  predicate DistinctRows(rows: seq<Row>) {
    forall i, j :: 0 <= i < j < |rows| ==> rows[i].what != rows[j].what
  }

  /** An undecided row the parser does not produce. */
  predicate IsLeftover(row: Row, candidates: seq<Candidate>) {
    !IsDecided(row) && !Offers(candidates, row.what)
  }

  lemma FindMeansOffers(cs: seq<Candidate>, what: CandidateId)
    ensures Find(cs, what).Some? <==> Offers(cs, what)
  {
  }

  /** The identities produced are those offered, whichever candidate is kept for each. */
  lemma {:induction false} DedupedOffers(candidates: seq<Candidate>, what: CandidateId)
    ensures Offers(Deduped(candidates), what) <==> Offers(candidates, what)
  {
    DedupeKeepsTheDenominator(candidates);
    if Offers(candidates, what) {
      var i :| 0 <= i < |candidates| && candidates[i].what == what;
      assert candidates[i] in candidates;
    }
    if Offers(Deduped(candidates), what) {
      var k :| 0 <= k < |Deduped(candidates)| && Deduped(candidates)[k].what == what;
      assert KeptFor(candidates, Deduped(candidates)[k]);
    }
  }

  // ----- Which rows stay -----

  lemma {:induction false} KeptHas(rows: seq<Row>, cs: seq<Candidate>, p: Parser, n: nat, i: nat)
    requires i < n <= |rows| && !IsRetired(rows, cs, i)
    ensures RowAfter(rows, cs, p, i) in Kept(rows, cs, p, n)
  {
    hide IsRetired, RowAfter;
    if i < n - 1 {
      KeptHas(rows, cs, p, n - 1, i);
    }
  }

  lemma {:induction false} KeptOrigin(rows: seq<Row>, cs: seq<Candidate>, p: Parser, n: nat, k: nat) returns (i: nat)
    requires n <= |rows| && k < |Kept(rows, cs, p, n)|
    ensures i < n && !IsRetired(rows, cs, i) && Kept(rows, cs, p, n)[k] == RowAfter(rows, cs, p, i)
    ensures k == |Kept(rows, cs, p, i)|
  {
    if k < |Kept(rows, cs, p, n - 1)| {
      i := KeptOrigin(rows, cs, p, n - 1, k);
    } else {
      i := n - 1;
    }
  }

  lemma {:induction false} NewOrigin(rows: seq<Row>, cs: seq<Candidate>, p: Parser, next: int, n: nat, k: nat) returns (i: nat)
    requires n <= |cs| && k < |New(rows, cs, p, next, n)|
    ensures i < n && !HasRow(rows, cs[i].what)
    ensures New(rows, cs, p, next, n)[k] == Offered(cs[i], p, next + k)
    ensures k == |New(rows, cs, p, next, i)|
  {
    if k < |New(rows, cs, p, next, n - 1)| {
      i := NewOrigin(rows, cs, p, next, n - 1, k);
    } else {
      i := n - 1;
    }
  }

  lemma {:induction false} NewHas(rows: seq<Row>, cs: seq<Candidate>, p: Parser, next: int, n: nat, i: nat)
    requires i < n <= |cs| && !HasRow(rows, cs[i].what)
    ensures HasRow(New(rows, cs, p, next, n), cs[i].what)
  {
    if i < n - 1 {
      NewHas(rows, cs, p, next, n - 1, i);
      var k :| 0 <= k < |New(rows, cs, p, next, n - 1)| && New(rows, cs, p, next, n - 1)[k].what == cs[i].what;
      assert New(rows, cs, p, next, n)[k].what == cs[i].what;
    } else {
      assert New(rows, cs, p, next, n)[|New(rows, cs, p, next, n - 1)|].what == cs[i].what;
    }
  }

  // ----- The promises that need nothing -----

  /** Of one row, what review owns: its identity, its decision, and the parser that was reviewed. */
  predicate SameDecision(a: Row, b: Row) {
    a.id == b.id && a.what == b.what && a.review == b.review && a.parserVersion == b.parserVersion
  }

  predicate HasDecision(rows: seq<Row>, row: Row) {
    exists r :: r in rows && SameDecision(r, row)
  }

  /** No decided row is deleted and no decision changes, whatever the parser produces. */
  lemma {:induction false} DecisionsAreRespected(rows: seq<Row>, candidates: seq<Candidate>, p: Parser, next: int, i: nat)
    requires i < |rows| && IsDecided(rows[i])
    ensures HasDecision(Loaded(rows, candidates, p, next), rows[i])
  {
    var cs := Deduped(candidates);
    KeptHas(rows, cs, p, |rows|, i);
    assert SameDecision(RowAfter(rows, cs, p, i), rows[i]);
    assert RowAfter(rows, cs, p, i) in Loaded(rows, candidates, p, next);
  }

  lemma {:induction false} KeptCount(rows: seq<Row>, cs: seq<Candidate>, p: Parser, n: nat)
    requires n <= |rows|
    ensures |Kept(rows, cs, p, n)| + |RetiredIds(rows, cs, n)| == n
  {
    if n > 0 {
      KeptCount(rows, cs, p, n - 1);
    }
  }

  /** Rows after = rows before + inserted - retired. */
  lemma {:induction false} RowsAreAccountedFor(rows: seq<Row>, candidates: seq<Candidate>, p: Parser, next: int)
    ensures var r := ResultOf(rows, candidates, p, next);
      |Loaded(rows, candidates, p, next)| + r.retired == |rows| + r.inserted
  {
    KeptCount(rows, Deduped(candidates), p, |rows|);
  }

  // ----- Where an undecided leftover survives -----

  predicate IsShadowedLeftover(rows: seq<Row>, candidates: seq<Candidate>, i: nat)
    requires i < |rows|
  {
    IsLeftover(rows[i], candidates) && !IsHeld(rows, i)
  }

  /**
   * The load removes every undecided row the parser stopped producing exactly when none of
   * them is shadowed by a later row stating the same.
   */
  lemma {:induction false} LeftoversGoUnlessShadowed(rows: seq<Row>, candidates: seq<Candidate>, p: Parser, next: int)
    ensures (forall r :: r in Loaded(rows, candidates, p, next) ==> !IsLeftover(r, candidates))
       <==> (forall i :: 0 <= i < |rows| ==> !IsShadowedLeftover(rows, candidates, i))
  {
    var cs := Deduped(candidates);
    var after := Loaded(rows, candidates, p, next);
    forall i | 0 <= i < |rows| && IsShadowedLeftover(rows, candidates, i)
      ensures exists r :: r in after && IsLeftover(r, candidates)
    {
      KeptHas(rows, cs, p, |rows|, i);
      assert rows[i] in after;
    }
    if forall i :: 0 <= i < |rows| ==> !IsShadowedLeftover(rows, candidates, i) {
      forall r | r in after ensures !IsLeftover(r, candidates) {
        var k :| 0 <= k < |after| && after[k] == r;
        if k < |Kept(rows, cs, p, |rows|)| {
          var i := KeptOrigin(rows, cs, p, |rows|, k);
          KeptIsNoLeftover(rows, candidates, p, i);
        } else {
          var i := NewOrigin(rows, cs, p, next, |cs|, k - |Kept(rows, cs, p, |rows|)|);
          assert Offers(cs, r.what);
          DedupedOffers(candidates, r.what);
        }
      }
    }
  }

  lemma KeptIsNoLeftover(rows: seq<Row>, candidates: seq<Candidate>, p: Parser, i: nat)
    requires i < |rows| && !IsRetired(rows, Deduped(candidates), i) && !IsShadowedLeftover(rows, candidates, i)
    ensures !IsLeftover(RowAfter(rows, Deduped(candidates), p, i), candidates)
  {
    FindMeansOffers(Deduped(candidates), rows[i].what);
    DedupedOffers(candidates, rows[i].what);
  }

  /** Two undecided rows stating the same, and a parser that produces neither: one stays. */
  lemma ShadowedLeftoverStays(row: Row, p: Parser, next: int)
    requires !IsDecided(row)
    ensures var twin := row.(id := row.id + 1);
      row in Loaded([row, twin], [], p, next) && IsLeftover(row, [])
  {
    var rows := [row, row.(id := row.id + 1)];
    assert rows[1].what == rows[0].what;
    assert !IsHeld(rows, 0);
    KeptHas(rows, Deduped([]), p, 2, 0);
  }

  // ----- When the verdict lands -----

  /**
   * Every held row that is produced again stays, and carries the verdict of the candidate kept for
   * its identity, except that its reason is that candidate's exactly when the row's state or unit
   * differed, or its reason already agreed.
   */
  lemma {:induction false} VerdictLands(rows: seq<Row>, candidates: seq<Candidate>, p: Parser, next: int, i: nat)
    returns (k: nat, j: nat)
    requires i < |rows| && IsHeld(rows, i) && Offers(candidates, rows[i].what)
    ensures var cs, after := Deduped(candidates), Loaded(rows, candidates, p, next);
      && j < |cs| && cs[j].what == rows[i].what
      && k < |after| && after[k].id == rows[i].id && after[k].what == rows[i].what
      && var row, c, r := rows[i], cs[j], after[k];
      && r.state == Some(c.state) && r.perUnit == c.perUnit && r.readingConfidence == c.readingConfidence
      && (r.reason == ReasonColumn(c.reason)
          <==> row.state != Some(c.state) || row.perUnit != c.perUnit || row.reason == ReasonColumn(c.reason))
  {
    hide Kept, New, Deduped, Offers;
    var cs := Deduped(candidates);
    FindMeansOffers(cs, rows[i].what);
    DedupedOffers(candidates, rows[i].what);
    j := Find(cs, rows[i].what).value;
    k := |Kept(rows, cs, p, i)|;
    KeptPlaced(rows, cs, p, |rows|, i);
  }

  /** A table in which it does not: a row of equal state and unit keeps a reason the parser no longer gives. */
  lemma StaleReasonStays(row: Row, c: Candidate, p: Parser, next: int)
    requires row.what == c.what && row.state == Some(c.state) && row.perUnit == c.perUnit
    requires row.reason != ReasonColumn(c.reason)
    ensures var after := Loaded([row], [c], p, next);
      && |after| == 1 && after[0].id == row.id
      && after[0].reason == row.reason && after[0].reason != ReasonColumn(c.reason)
  {
    SingleLoaded(row, c, p, next);
    hide Loaded;
  }

  lemma SingleDeduped(c: Candidate)
    ensures Deduped([c]) == [c]
  {
    assert [c][..0] == [];
  }

  lemma SingleLoaded(row: Row, c: Candidate, p: Parser, next: int)
    requires row.what == c.what
    ensures Loaded([row], [c], p, next) == [Reconciled(row, c, p)]
  {
    SingleDeduped(c);
    hide Deduped, Reconciled;
    var rows, cs := [row], [c];
    assert rows[0].what == c.what && cs[0].what == c.what;
    assert IsHeld(rows, 0) && Find(cs, row.what) == Some(0);
    hide Find, IsHeld;
    assert Kept(rows, cs, p, 1) == [Reconciled(row, c, p)];
    assert HasRow(rows, cs[0].what);
    assert New(rows, cs, p, next, 1) == [];
  }

  // ----- Convergence -----

  lemma KeptAreDistinct(rows: seq<Row>, cs: seq<Candidate>, p: Parser, k: nat, l: nat)
    requires DistinctRows(rows) && k < l < |Kept(rows, cs, p, |rows|)|
    ensures Kept(rows, cs, p, |rows|)[k].what != Kept(rows, cs, p, |rows|)[l].what
  {
    hide Reconciled, Kept;
    var i := KeptOrigin(rows, cs, p, |rows|, k);
    var j := KeptOrigin(rows, cs, p, |rows|, l);
    assert i != j;
  }

  lemma NewAreDistinct(rows: seq<Row>, cs: seq<Candidate>, p: Parser, next: int, k: nat, l: nat)
    requires DistinctCandidates(cs) && k < l < |New(rows, cs, p, next, |cs|)|
    ensures New(rows, cs, p, next, |cs|)[k].what != New(rows, cs, p, next, |cs|)[l].what
  {
    hide New;
    var i := NewOrigin(rows, cs, p, next, |cs|, k);
    var j := NewOrigin(rows, cs, p, next, |cs|, l);
    assert i != j;
  }

  lemma KeptIsNotNew(rows: seq<Row>, cs: seq<Candidate>, p: Parser, next: int, k: nat, l: nat)
    requires k < |Kept(rows, cs, p, |rows|)| && l < |New(rows, cs, p, next, |cs|)|
    ensures Kept(rows, cs, p, |rows|)[k].what != New(rows, cs, p, next, |cs|)[l].what
  {
    hide Reconciled, Kept, New;
    var i := KeptOrigin(rows, cs, p, |rows|, k);
    var j := NewOrigin(rows, cs, p, next, |cs|, l);
    assert rows[i].what != cs[j].what;
  }

  /** After a load each identity has at most one row, if it had before. */
  lemma {:induction false} LoadedIsDistinct(rows: seq<Row>, candidates: seq<Candidate>, p: Parser, next: int)
    requires DistinctRows(rows)
    ensures DistinctRows(Loaded(rows, candidates, p, next))
  {
    hide Kept, New, Deduped;
    var cs := Deduped(candidates);
    var after := Loaded(rows, candidates, p, next);
    var m := |Kept(rows, cs, p, |rows|)|;
    DedupeKeepsTheDenominator(candidates);
    forall k, l | 0 <= k < l < |after| ensures after[k].what != after[l].what {
      if l < m {
        KeptAreDistinct(rows, cs, p, k, l);
      } else if k < m {
        KeptIsNotNew(rows, cs, p, next, k, l - m);
      } else {
        NewAreDistinct(rows, cs, p, next, k - m, l - m);
      }
    }
  }

  /** Every identity the parser produces has a row. */
  lemma {:induction false} ProducedHasRow(rows: seq<Row>, candidates: seq<Candidate>, p: Parser, next: int, what: CandidateId)
    requires Offers(candidates, what)
    ensures HasRow(Loaded(rows, candidates, p, next), what)
  {
    hide Deduped, Kept, New, Reconciled;
    var cs := Deduped(candidates);
    var after := Loaded(rows, candidates, p, next);
    DedupedOffers(candidates, what);
    var c :| 0 <= c < |cs| && cs[c].what == what;
    if HasRow(rows, what) {
      var row := HeldRow(rows, what);
      var i: nat :| i < |rows| && IsHeld(rows, i) && rows[i].what == what;
      assert Find(cs, what).Some?;
      KeptHas(rows, cs, p, |rows|, i);
      var k :| 0 <= k < |Kept(rows, cs, p, |rows|)| && Kept(rows, cs, p, |rows|)[k] == RowAfter(rows, cs, p, i);
      assert after[k].what == what;
    } else {
      NewHas(rows, cs, p, next, |cs|, c);
      var added := New(rows, cs, p, next, |cs|);
      var k :| 0 <= k < |added| && added[k].what == what;
      assert after[|Kept(rows, cs, p, |rows|)| + k].what == what;
    }
  }

  lemma ReconciledTwice(row: Row, c: Candidate, p: Parser)
    ensures Reconciled(Reconciled(row, c, p), c, p) == Reconciled(row, c, p)
    ensures !GainsBox(Reconciled(row, c, p), c) && !IsRefreshed(Reconciled(row, c, p), p)
  {
  }

  /** A row as a load leaves it is one the next load has nothing to do to. */
  predicate IsCurrent(row: Row, cs: seq<Candidate>, p: Parser) {
    match Find(cs, row.what)
    case None => IsDecided(row)
    case Some(k) =>
      Reconciled(row, cs[k], p) == row && !GainsBox(row, cs[k]) && !IsRefreshed(row, p)
  }

  lemma KeptIsCurrent(rows: seq<Row>, cs: seq<Candidate>, p: Parser, i: nat)
    requires i < |rows| && IsHeld(rows, i) && !IsRetired(rows, cs, i)
    ensures IsCurrent(RowAfter(rows, cs, p, i), cs, p)
  {
    var c := Find(cs, rows[i].what);
    if c.Some? {
      ReconciledTwice(rows[i], cs[c.value], p);
    }
  }

  lemma NewIsCurrent(cs: seq<Candidate>, p: Parser, i: nat, id: int)
    requires i < |cs| && DistinctCandidates(cs)
    ensures IsCurrent(Offered(cs[i], p, id), cs, p)
  {
    assert Find(cs, cs[i].what) == Some(i);
  }

  lemma {:induction false} CurrentIsKept(rows: seq<Row>, cs: seq<Candidate>, p: Parser, n: nat)
    requires n <= |rows| && forall i :: 0 <= i < |rows| && IsHeld(rows, i) ==> IsCurrent(rows[i], cs, p)
    ensures Kept(rows, cs, p, n) == rows[..n] && RetiredIds(rows, cs, n) == []
  {
    hide Reconciled, IsHeld;
    if n > 0 {
      CurrentIsKept(rows, cs, p, n - 1);
      assert IsHeld(rows, n - 1) ==> IsCurrent(rows[n - 1], cs, p);
      assert rows[..n] == rows[..n - 1] + [rows[n - 1]];
    }
  }

  lemma {:induction false} NothingNew(rows: seq<Row>, cs: seq<Candidate>, p: Parser, next: int, n: nat)
    requires n <= |cs| && forall i :: 0 <= i < |cs| ==> HasRow(rows, cs[i].what)
    ensures New(rows, cs, p, next, n) == []
  {
    if n > 0 {
      NothingNew(rows, cs, p, next, n - 1);
    }
  }

  lemma {:induction false} NothingTallied(rows: seq<Row>, cs: seq<Candidate>, p: Parser, n: nat)
    requires n <= |cs| && DistinctCandidates(cs)
    requires forall i :: 0 <= i < |rows| && IsHeld(rows, i) && Find(cs, rows[i].what).Some? ==> IsCurrent(rows[i], cs, p)
    ensures Tally(rows, cs, p, n).refreshed == Tally(rows, cs, p, n).located == 0
  {
    hide Reconciled, IsHeld, HeldRow, GainsBox, IsRefreshed;
    if n > 0 {
      NothingTallied(rows, cs, p, n - 1);
      var held := HeldRow(rows, cs[n - 1].what);
      if held.Some? {
        var i: nat :| i < |rows| && IsHeld(rows, i) && rows[i] == held.value && held.value.what == cs[n - 1].what;
        assert Find(cs, rows[i].what) == Some(n - 1);
        assert IsCurrent(rows[i], cs, p);
      }
    }
  }

  // ----- When the next load is idle -----

  lemma {:induction false} KeptPlaced(rows: seq<Row>, cs: seq<Candidate>, p: Parser, n: nat, i: nat)
    requires i < n <= |rows| && !IsRetired(rows, cs, i)
    ensures |Kept(rows, cs, p, i)| < |Kept(rows, cs, p, n)|
    ensures Kept(rows, cs, p, n)[|Kept(rows, cs, p, i)|] == RowAfter(rows, cs, p, i)
  {
    hide IsRetired, RowAfter;
    if i < n - 1 {
      KeptPlaced(rows, cs, p, n - 1, i);
    }
  }

  /**
   * An undecided leftover shadowed by the row this load retires: the next load finds it on top,
   * and retires it in its turn.
   */
  predicate Uncovers(rows: seq<Row>, candidates: seq<Candidate>, j: nat, l: nat) {
    && j < l < |rows| && rows[j].what == rows[l].what && IsHeld(rows, l)
    && (forall q :: j < q < l ==> rows[q].what != rows[j].what)
    && IsLeftover(rows[j], candidates) && IsLeftover(rows[l], candidates)
  }

  lemma RetiredIsHeldLeftover(rows: seq<Row>, candidates: seq<Candidate>, i: nat)
    requires i < |rows|
    ensures IsRetired(rows, Deduped(candidates), i) <==> IsHeld(rows, i) && IsLeftover(rows[i], candidates)
  {
    FindMeansOffers(Deduped(candidates), rows[i].what);
    DedupedOffers(candidates, rows[i].what);
  }

  /** A row with a later one of its identity that stays is not the held one afterwards. */
  lemma LaterOneHolds(rows: seq<Row>, candidates: seq<Candidate>, p: Parser, next: int, i: nat, q: nat)
    requires i < q < |rows| && rows[q].what == rows[i].what
    requires !IsRetired(rows, Deduped(candidates), i) && !IsRetired(rows, Deduped(candidates), q)
    ensures var after, k := Loaded(rows, candidates, p, next), |Kept(rows, Deduped(candidates), p, i)|;
      k < |after| && !IsHeld(after, k)
  {
    hide IsRetired, Kept, New, Deduped, Reconciled;
    var cs := Deduped(candidates);
    var after := Loaded(rows, candidates, p, next);
    KeptPlaced(rows, cs, p, q, i);
    KeptPlaced(rows, cs, p, |rows|, i);
    KeptPlaced(rows, cs, p, |rows|, q);
    assert after[|Kept(rows, cs, p, i)|].what == rows[i].what;
    assert after[|Kept(rows, cs, p, q)|].what == rows[q].what;
  }

  /** The held rows a load leaves are current, but for a leftover it has uncovered. */
  lemma {:induction false} HeldAfter(rows: seq<Row>, candidates: seq<Candidate>, p: Parser, next: int, k: nat)
    requires var after := Loaded(rows, candidates, p, next); k < |after| && IsHeld(after, k)
    ensures var row := Loaded(rows, candidates, p, next)[k];
      || IsCurrent(row, Deduped(candidates), p)
      || (IsLeftover(row, candidates) && Find(Deduped(candidates), row.what).None?
          && exists j, l :: Uncovers(rows, candidates, j, l))
  {
    hide Kept, New, Deduped, IsCurrent, RowAfter, Offered, IsRetired, Uncovers;
    var cs := Deduped(candidates);
    var m := |Kept(rows, cs, p, |rows|)|;
    if k < m {
      var i := KeptOrigin(rows, cs, p, |rows|, k);
      if IsHeld(rows, i) {
        KeptIsCurrent(rows, cs, p, i);
      } else {
        UncoveredLater(rows, candidates, p, next, i);
      }
    } else {
      var i := NewOrigin(rows, cs, p, next, |cs|, k - m);
      DedupeKeepsTheDenominator(candidates);
      NewIsCurrent(cs, p, i, next + (k - m));
    }
  }

  /** A shadowed row found on top afterwards: decided, or a leftover just uncovered. */
  lemma {:induction false} UncoveredLater(rows: seq<Row>, candidates: seq<Candidate>, p: Parser, next: int, i: nat)
    requires i < |rows| && !IsHeld(rows, i) && !IsRetired(rows, Deduped(candidates), i)
    requires var after, k := Loaded(rows, candidates, p, next), |Kept(rows, Deduped(candidates), p, i)|;
      k < |after| && IsHeld(after, k)
    ensures var row := RowAfter(rows, Deduped(candidates), p, i);
      || IsCurrent(row, Deduped(candidates), p)
      || (IsLeftover(row, candidates) && Find(Deduped(candidates), row.what).None?
          && exists j, l :: Uncovers(rows, candidates, j, l))
  {
    hide Kept, New, Deduped, Loaded, IsRetired;
    var cs := Deduped(candidates);
    var l := LastOf(rows, i);
    forall q | i < q < |rows| && rows[q].what == rows[i].what ensures q == l {
      if q != l {
        RetiredIsHeldLeftover(rows, candidates, q);
        LaterOneHolds(rows, candidates, p, next, i, q);
      }
    }
    RetiredIsHeldLeftover(rows, candidates, l);
    if !IsRetired(rows, cs, l) {
      LaterOneHolds(rows, candidates, p, next, i, l);
    }
    FindMeansOffers(cs, rows[i].what);
    DedupedOffers(candidates, rows[i].what);
    if !IsDecided(rows[i]) {
      assert Uncovers(rows, candidates, i, l);
    }
  }

  lemma LastOf(rows: seq<Row>, i: nat) returns (l: nat)
    requires i < |rows| && !IsHeld(rows, i)
    ensures i < l < |rows| && rows[l].what == rows[i].what && IsHeld(rows, l)
  {
    l := |rows| - 1;
    while rows[l].what != rows[i].what
      invariant i < l < |rows|
      invariant forall q :: l < q < |rows| ==> rows[q].what != rows[i].what
      decreases l
    {
      l := l - 1;
    }
  }

  /** An uncovered leftover is retired by the next load. */
  lemma {:induction false} UncoveredIsRetired(rows: seq<Row>, candidates: seq<Candidate>, p: Parser, next: int, j: nat, l: nat)
    returns (k: nat)
    requires Uncovers(rows, candidates, j, l)
    ensures var after := Loaded(rows, candidates, p, next); k < |after| && IsRetired(after, Deduped(candidates), k)
  {
    hide Kept, New, Deduped, IsRetired;
    var cs := Deduped(candidates);
    var after := Loaded(rows, candidates, p, next);
    k := |Kept(rows, cs, p, j)|;
    RetiredIsHeldLeftover(rows, candidates, j);
    RetiredIsHeldLeftover(rows, candidates, l);
    KeptPlaced(rows, cs, p, |rows|, j);
    assert after[k] == rows[j];
    forall q | k < q < |after| ensures after[q].what != rows[j].what {
      var m := |Kept(rows, cs, p, |rows|)|;
      if q < m {
        var i := KeptOrigin(rows, cs, p, |rows|, q);
        if i < j {
          KeptPlaced(rows, cs, p, j, i);
        }
      } else {
        KeptIsNotNew(rows, cs, p, next, k, q - m);
      }
    }
    RetiredIsHeldLeftover(after, candidates, k);
  }

  lemma {:induction false} RetiredIdsCount(rows: seq<Row>, cs: seq<Candidate>, n: nat, i: nat)
    requires i < n <= |rows| && IsRetired(rows, cs, i)
    ensures |RetiredIds(rows, cs, n)| > 0
  {
    hide IsRetired;
    if i < n - 1 {
      RetiredIdsCount(rows, cs, n - 1, i);
    }
  }

  /**
   * Where the database gives the rows back in the order they were left, a second load of the same
   * candidates never inserts, refreshes or locates anything. It is idle, and leaves every row as
   * it found it, exactly when the first uncovered no leftover.
   */
  lemma {:induction false} SameOrderIsIdleExactly(rows: seq<Row>, candidates: seq<Candidate>, p: Parser, next: int, later: int)
    ensures var after := Loaded(rows, candidates, p, next);
      var again := ResultOf(after, candidates, p, later);
      && again.inserted == again.refreshed == again.located == 0
      && (Loaded(after, candidates, p, later) == after <==> forall j, l :: !Uncovers(rows, candidates, j, l))
      && (again.retired == 0 <==> forall j, l :: !Uncovers(rows, candidates, j, l))
  {
    hide Deduped, IsCurrent, Kept, New, Tally, IsHeld, Uncovers, RetiredIds, IsLeftover, IsRetired;
    var cs := Deduped(candidates);
    var after := Loaded(rows, candidates, p, next);
    DedupeKeepsTheDenominator(candidates);
    forall k | 0 <= k < |after| && IsHeld(after, k)
      ensures Find(cs, after[k].what).Some? ==> IsCurrent(after[k], cs, p)
      ensures (forall j, l :: !Uncovers(rows, candidates, j, l)) ==> IsCurrent(after[k], cs, p)
    {
      HeldAfter(rows, candidates, p, next, k);
    }
    NothingTallied(after, cs, p, |cs|);
    forall i | 0 <= i < |cs| ensures HasRow(after, cs[i].what) {
      assert Offers(cs, cs[i].what);
      DedupedOffers(candidates, cs[i].what);
      ProducedHasRow(rows, candidates, p, next, cs[i].what);
    }
    NothingNew(after, cs, p, later, |cs|);
    KeptCount(after, cs, p, |after|);
    if j: nat, l: nat :| Uncovers(rows, candidates, j, l) {
      var k := UncoveredIsRetired(rows, candidates, p, next, j, l);
      RetiredIdsCount(after, cs, |after|, k);
    } else {
      CurrentIsKept(after, cs, p, |after|);
    }
  }

  /** Nothing is inserted, retired, refreshed or located, and every row stays as it is. */
  predicate IsIdle(rows: seq<Row>, candidates: seq<Candidate>, p: Parser, next: int) {
    var r := ResultOf(rows, candidates, p, next);
    && r.inserted == r.retired == r.refreshed == r.located == 0
    && Loaded(rows, candidates, p, next) == rows
  }

  /** With nothing retired the rows stay where they are. */
  lemma {:induction false} NoneRetired(rows: seq<Row>, cs: seq<Candidate>, p: Parser, n: nat)
    requires n <= |rows| && RetiredIds(rows, cs, n) == []
    ensures |Kept(rows, cs, p, n)| == n
    ensures forall i :: 0 <= i < n ==> !IsRetired(rows, cs, i) && Kept(rows, cs, p, n)[i] == RowAfter(rows, cs, p, i)
  {
    hide IsRetired, RowAfter;
    if n > 0 {
      NoneRetired(rows, cs, p, n - 1);
    }
  }

  lemma {:induction false} NotNewHasRow(rows: seq<Row>, cs: seq<Candidate>, p: Parser, next: int, n: nat)
    requires n <= |cs| && New(rows, cs, p, next, n) == []
    ensures forall i :: 0 <= i < n ==> HasRow(rows, cs[i].what)
  {
    hide HasRow, Offered;
    if n > 0 {
      NotNewHasRow(rows, cs, p, next, n - 1);
    }
  }

  /** What a load finds nothing to do to: every held row current, and a row for all it produces. */
  predicate IsSettled(rows: seq<Row>, candidates: seq<Candidate>, p: Parser) {
    var cs := Deduped(candidates);
    && (forall i :: 0 <= i < |rows| && IsHeld(rows, i) ==> IsCurrent(rows[i], cs, p))
    && (forall i :: 0 <= i < |cs| ==> HasRow(rows, cs[i].what))
  }

  lemma {:induction false} SettledIsIdle(rows: seq<Row>, candidates: seq<Candidate>, p: Parser, next: int)
    requires IsSettled(rows, candidates, p)
    ensures IsIdle(rows, candidates, p, next)
  {
    hide Deduped, IsCurrent, Kept, New, Tally, IsHeld, RetiredIds, HasRow;
    var cs := Deduped(candidates);
    DedupeKeepsTheDenominator(candidates);
    CurrentIsKept(rows, cs, p, |rows|);
    NothingNew(rows, cs, p, next, |cs|);
    NothingTallied(rows, cs, p, |cs|);
  }

  lemma KeptAsItIsMeansCurrent(rows: seq<Row>, cs: seq<Candidate>, p: Parser, i: nat)
    requires i < |rows| && IsHeld(rows, i) && !IsRetired(rows, cs, i) && RowAfter(rows, cs, p, i) == rows[i]
    ensures IsCurrent(rows[i], cs, p)
  {
  }

  lemma {:induction false} IdleIsSettled(rows: seq<Row>, candidates: seq<Candidate>, p: Parser, next: int)
    requires IsIdle(rows, candidates, p, next)
    ensures IsSettled(rows, candidates, p)
  {
    hide Deduped, IsCurrent, Kept, New, Tally, IsHeld, RetiredIds, HasRow, IsRetired, RowAfter;
    var cs := Deduped(candidates);
    assert |RetiredIds(rows, cs, |rows|)| == 0 && |New(rows, cs, p, next, |cs|)| == 0;
    NoneRetired(rows, cs, p, |rows|);
    NotNewHasRow(rows, cs, p, next, |cs|);
    forall i | 0 <= i < |rows| && IsHeld(rows, i) ensures IsCurrent(rows[i], cs, p) {
      assert Loaded(rows, candidates, p, next)[i] == RowAfter(rows, cs, p, i);
      KeptAsItIsMeansCurrent(rows, cs, p, i);
    }
  }

  lemma IdleMeansLastIsCurrent(rows: seq<Row>, candidates: seq<Candidate>, p: Parser, next: int)
    requires |rows| > 0 && IsIdle(rows, candidates, p, next)
    ensures IsCurrent(rows[|rows| - 1], Deduped(candidates), p)
  {
    hide Deduped, IsCurrent, IsIdle, HasRow;
    IdleIsSettled(rows, candidates, p, next);
    assert IsHeld(rows, |rows| - 1);
  }

  /** The rows of a table in whatever order the database gives them. */
  ghost predicate Reordered(rows: seq<Row>, fetched: seq<Row>) {
    multiset(rows) == multiset(fetched)
  }

  lemma ReorderedHas(rows: seq<Row>, fetched: seq<Row>, r: Row)
    requires Reordered(rows, fetched)
    ensures r in rows <==> r in fetched
  {
    assert r in multiset(rows) <==> r in multiset(fetched);
  }

  /** Any row can be the one fetched last. */
  lemma LastFetched(rows: seq<Row>, k: nat) returns (fetched: seq<Row>)
    requires k < |rows|
    ensures Reordered(rows, fetched) && |fetched| > 0 && fetched[|fetched| - 1] == rows[k]
  {
    fetched := rows[..k] + rows[k + 1..] + [rows[k]];
    assert rows == rows[..k] + [rows[k]] + rows[k + 1..];
  }

  /** A load leaves its rows current, but for those that were shadowed, which it leaves as they were. */
  lemma {:induction false} LoadedIsCurrentExactly(rows: seq<Row>, candidates: seq<Candidate>, p: Parser, next: int)
    ensures var cs := Deduped(candidates);
      (forall r :: r in Loaded(rows, candidates, p, next) ==> IsCurrent(r, cs, p)) <==>
      (forall i :: 0 <= i < |rows| && !IsHeld(rows, i) ==> IsCurrent(rows[i], cs, p))
  {
    hide Kept, New, Deduped, IsCurrent, RowAfter, Offered;
    var cs := Deduped(candidates);
    var after := Loaded(rows, candidates, p, next);
    var m := |Kept(rows, cs, p, |rows|)|;
    DedupeKeepsTheDenominator(candidates);
    forall i | 0 <= i < |rows| && !IsHeld(rows, i) ensures rows[i] in after {
      ShadowedIsAsItWas(rows, cs, p, i);
      KeptHas(rows, cs, p, |rows|, i);
    }
    forall k | 0 <= k < |after|
      ensures IsCurrent(after[k], cs, p) || exists i :: 0 <= i < |rows| && !IsHeld(rows, i) && rows[i] == after[k]
    {
      if k < m {
        var i := KeptOrigin(rows, cs, p, |rows|, k);
        if IsHeld(rows, i) {
          KeptIsCurrent(rows, cs, p, i);
        } else {
          ShadowedIsAsItWas(rows, cs, p, i);
        }
      } else {
        var i := NewOrigin(rows, cs, p, next, |cs|, k - m);
        NewIsCurrent(cs, p, i, next + (k - m));
      }
    }
  }

  lemma ShadowedIsAsItWas(rows: seq<Row>, cs: seq<Candidate>, p: Parser, i: nat)
    requires i < |rows| && !IsHeld(rows, i)
    ensures !IsRetired(rows, cs, i) && RowAfter(rows, cs, p, i) == rows[i]
  {
  }

  lemma {:induction false} ProducedHasRowAgain(
    rows: seq<Row>, candidates: seq<Candidate>, p: Parser, next: int, fetched: seq<Row>, i: nat
  )
    requires Reordered(Loaded(rows, candidates, p, next), fetched) && i < |Deduped(candidates)|
    ensures HasRow(fetched, Deduped(candidates)[i].what)
  {
    hide Deduped, Loaded;
    var what, after := Deduped(candidates)[i].what, Loaded(rows, candidates, p, next);
    assert Offers(Deduped(candidates), what);
    DedupedOffers(candidates, what);
    ProducedHasRow(rows, candidates, p, next, what);
    var k :| 0 <= k < |after| && after[k].what == what;
    ReorderedHas(after, fetched, after[k]);
  }

  /**
   * A second load of the same candidates has nothing to do, whatever order the rows come back in,
   * exactly when each row the first load found shadowed needed nothing.
   */
  lemma {:induction false} SecondLoadIsIdleExactly(rows: seq<Row>, candidates: seq<Candidate>, p: Parser, next: int, later: int)
    ensures var after := Loaded(rows, candidates, p, next);
      (forall fetched :: Reordered(after, fetched) ==> IsIdle(fetched, candidates, p, later)) <==>
      (forall i :: 0 <= i < |rows| && !IsHeld(rows, i) ==> IsCurrent(rows[i], Deduped(candidates), p))
  {
    hide Deduped, IsCurrent, Loaded, IsIdle, Reordered, HasRow;
    var cs := Deduped(candidates);
    var after := Loaded(rows, candidates, p, next);
    LoadedIsCurrentExactly(rows, candidates, p, next);
    if forall r :: r in after ==> IsCurrent(r, cs, p) {
      forall fetched | Reordered(after, fetched) ensures IsIdle(fetched, candidates, p, later) {
        forall i | 0 <= i < |fetched| ensures IsCurrent(fetched[i], cs, p) {
          ReorderedHas(after, fetched, fetched[i]);
        }
        forall i | 0 <= i < |cs| ensures HasRow(fetched, cs[i].what) {
          ProducedHasRowAgain(rows, candidates, p, next, fetched, i);
        }
        SettledIsIdle(fetched, candidates, p, later);
      }
    } else {
      var k :| 0 <= k < |after| && !IsCurrent(after[k], cs, p);
      var fetched := LastFetched(after, k);
      if IsIdle(fetched, candidates, p, later) {
        IdleMeansLastIsCurrent(fetched, candidates, p, later);
      }
    }
  }

  /** Over distinct identities a second load of the same candidates writes nothing at all, in any order. */
  lemma {:induction false} LoadConverges(
    rows: seq<Row>, candidates: seq<Candidate>, p: Parser, next: int, fetched: seq<Row>, later: int
  )
    requires DistinctRows(rows) && Reordered(Loaded(rows, candidates, p, next), fetched)
    ensures Loaded(fetched, candidates, p, later) == fetched
    ensures var again := ResultOf(fetched, candidates, p, later);
      again.inserted == again.retired == again.refreshed == again.located == 0
  {
    hide Loaded, ResultOf, Deduped, IsCurrent, Reordered;
    SecondLoadIsIdleExactly(rows, candidates, p, next, later);
    assert IsIdle(fetched, candidates, p, later);
  }

  /** The load's promise in one place, for a document no two rows of which state the same. */
  lemma {:induction false} LoadAgrees(rows: seq<Row>, candidates: seq<Candidate>, p: Parser, next: int)
    requires DistinctRows(rows)
    ensures var after := Loaded(rows, candidates, p, next);
      && DistinctRows(after)
      && (forall what :: Offers(candidates, what) ==> HasRow(after, what))
      && (forall r :: r in after ==> IsDecided(r) || Offers(candidates, r.what))
      && (forall i :: 0 <= i < |rows| && IsDecided(rows[i]) ==> HasDecision(after, rows[i]))
  {
    hide Loaded;
    LoadedIsDistinct(rows, candidates, p, next);
    forall i | 0 <= i < |rows| && IsDecided(rows[i]) ensures HasDecision(Loaded(rows, candidates, p, next), rows[i]) {
      DecisionsAreRespected(rows, candidates, p, next, i);
    }
    forall what | Offers(candidates, what) ensures HasRow(Loaded(rows, candidates, p, next), what) {
      ProducedHasRow(rows, candidates, p, next, what);
    }
    LeftoversGoUnlessShadowed(rows, candidates, p, next);
  }
}
