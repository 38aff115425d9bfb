/** The loader's loops over the table, proved to leave the rows of `FactsLoad.Loaded`. */
module FactsLoader {
  import opened Wrappers
  import opened FactsLoad
  import opened FactsLoadHolds

  predicate DistinctRowIds(rows: seq<Row>) {
    forall i, j :: 0 <= i < j < |rows| ==> rows[i].id != rows[j].id
  }

  function Replaced(rows: seq<Row>, id: int, row: Row): (r: seq<Row>)
    ensures |r| == |rows|
    ensures forall i :: 0 <= i < |r| ==> r[i] == if rows[i].id == id then row else rows[i]
  {
    seq(|rows|, i requires 0 <= i < |rows| => if rows[i].id == id then row else rows[i])
  }

  /** One row per identity, and where it sits: the loader's map. */
  ghost predicate IsHeldMap(existing: map<CandidateId, Row>, rows: seq<Row>) {
    forall what :: HeldRow(rows, what) == if what in existing then Some(existing[what]) else None
  }

  /** What the table holds once the first `n` candidates have been seen. */
  function Midway(rows: seq<Row>, cs: seq<Candidate>, p: Parser, next: int, n: nat): seq<Row>
    requires n <= |cs|
  {
    RowsAfter(rows, cs[..n], p) + New(rows, cs, p, next, n)
  }

  lemma FindTake(cs: seq<Candidate>, n: nat, what: CandidateId)
    requires n < |cs| && DistinctCandidates(cs)
    ensures Find(cs[..n + 1], what) == if cs[n].what == what then Some(n) else Find(cs[..n], what)
  {
    assert cs[..n + 1][..n] == cs[..n];
  }

  lemma NewIds(rows: seq<Row>, cs: seq<Candidate>, p: Parser, next: int, n: nat, k: nat)
    requires n <= |cs| && k < |New(rows, cs, p, next, n)|
    ensures New(rows, cs, p, next, n)[k].id == next + k
  {
  }

  /** Reconciling the held row is the step to the next midway table. */
  lemma {:induction false} MidwayHeld(rows: seq<Row>, cs: seq<Candidate>, p: Parser, next: int, n: nat, i: nat)
    requires n < |cs| && DistinctCandidates(cs) && DistinctRowIds(rows)
    requires forall r :: r in rows ==> r.id < next
    requires i < |rows| && IsHeld(rows, i) && rows[i].what == cs[n].what
    ensures Midway(rows, cs, p, next, n)[i] == rows[i]
    ensures Replaced(Midway(rows, cs, p, next, n), rows[i].id, Reconciled(rows[i], cs[n], p)) == Midway(rows, cs, p, next, n + 1)
  {
    assert HasRow(rows, cs[n].what);
    assert New(rows, cs, p, next, n + 1) == New(rows, cs, p, next, n);
    forall j | 0 <= j < |rows|
      ensures RowAfter(rows, cs[..n + 1], p, j) == if j == i then Reconciled(rows[i], cs[n], p) else RowAfter(rows, cs[..n], p, j)
    {
      FindTake(cs, n, rows[j].what);
    }
    NoneBefore(cs, n);
    assert rows[i] in rows;
    forall k | 0 <= k < |New(rows, cs, p, next, n)| ensures New(rows, cs, p, next, n)[k].id != rows[i].id {
      NewIds(rows, cs, p, next, n, k);
    }
  }

  lemma NoneBefore(cs: seq<Candidate>, n: nat)
    requires n < |cs| && DistinctCandidates(cs)
    ensures Find(cs[..n], cs[n].what) == None
  {
    var r := Find(cs[..n], cs[n].what);
  }

  lemma {:induction false} MidwayNew(rows: seq<Row>, cs: seq<Candidate>, p: Parser, next: int, n: nat)
    requires n < |cs| && DistinctCandidates(cs) && !HasRow(rows, cs[n].what)
    ensures Midway(rows, cs, p, next, n) + [Offered(cs[n], p, next + |New(rows, cs, p, next, n)|)]
         == Midway(rows, cs, p, next, n + 1)
  {
    forall j | 0 <= j < |rows| ensures RowAfter(rows, cs[..n + 1], p, j) == RowAfter(rows, cs[..n], p, j) {
      FindTake(cs, n, rows[j].what);
      assert rows[j].what != cs[n].what;
    }
    assert RowsAfter(rows, cs[..n + 1], p) == RowsAfter(rows, cs[..n], p);
  }

  lemma MidwayStart(rows: seq<Row>, cs: seq<Candidate>, p: Parser, next: int)
    ensures Midway(rows, cs, p, next, 0) == rows
  {
    assert cs[..0] == [];
    assert RowsAfter(rows, [], p) == rows;
  }

  /** Rows whose id is not listed. */
  function Without(rows: seq<Row>, ids: seq<int>): seq<Row> {
    if rows == [] then []
    else Without(rows[..|rows| - 1], ids) + (if rows[|rows| - 1].id in ids then [] else [rows[|rows| - 1]])
  }

  lemma {:induction false} WithoutNone(rows: seq<Row>, ids: seq<int>)
    requires forall i :: 0 <= i < |rows| ==> rows[i].id !in ids
    ensures Without(rows, ids) == rows
  {
    if rows != [] {
      WithoutNone(rows[..|rows| - 1], ids);
    }
  }

  lemma {:induction false} WithoutAppend(a: seq<Row>, b: seq<Row>, ids: seq<int>)
    ensures Without(a + b, ids) == Without(a, ids) + Without(b, ids)
  {
    if b == [] {
      assert a + b == a;
    } else {
      var front := b[..|b| - 1];
      assert (a + b)[..|a + b| - 1] == a + front;
      WithoutAppend(a, front, ids);
    }
  }

  lemma {:induction false} RetiredIdsHold(rows: seq<Row>, cs: seq<Candidate>, n: nat, i: nat)
    requires DistinctRowIds(rows) && n <= |rows| && i < |rows|
    ensures rows[i].id in RetiredIds(rows, cs, n) <==> i < n && IsRetired(rows, cs, i)
  {
    if n > 0 {
      RetiredIdsHold(rows, cs, n - 1, i);
      assert rows[i].id == rows[n - 1].id ==> i == n - 1;
    }
  }

  lemma {:induction false} RetiredAreOld(rows: seq<Row>, cs: seq<Candidate>, n: nat, id: int)
    requires n <= |rows| && id in RetiredIds(rows, cs, n)
    ensures exists r :: r in rows && r.id == id
  {
    if id in RetiredIds(rows, cs, n - 1) {
      RetiredAreOld(rows, cs, n - 1, id);
    } else {
      assert rows[n - 1] in rows;
    }
  }

  lemma {:induction false} WithoutRetired(rows: seq<Row>, cs: seq<Candidate>, p: Parser, n: nat)
    requires DistinctRowIds(rows) && n <= |rows|
    ensures Without(RowsAfter(rows, cs, p)[..n], RetiredIds(rows, cs, |rows|)) == Kept(rows, cs, p, n)
  {
    if n > 0 {
      var after := RowsAfter(rows, cs, p);
      WithoutRetired(rows, cs, p, n - 1);
      assert after[..n][..n - 1] == after[..n - 1];
      RetiredIdsHold(rows, cs, |rows|, n - 1);
    }
  }

  /** Deleting the retired ids from the table the candidates left is the load. */
  lemma {:induction false} DeletingCompletes(rows: seq<Row>, candidates: seq<Candidate>, p: Parser, next: int)
    requires DistinctRowIds(rows) && forall r :: r in rows ==> r.id < next
    ensures var cs := Deduped(candidates);
      Without(Midway(rows, cs, p, next, |cs|), RetiredIds(rows, cs, |rows|)) == Loaded(rows, candidates, p, next)
  {
    var cs := Deduped(candidates);
    var ids := RetiredIds(rows, cs, |rows|);
    assert cs[..|cs|] == cs;
    var after, added := RowsAfter(rows, cs, p), New(rows, cs, p, next, |cs|);
    WithoutAppend(after, added, ids);
    WithoutRetired(rows, cs, p, |rows|);
    assert after[..|rows|] == after;
    forall k | 0 <= k < |added| ensures added[k].id !in ids {
      NewIds(rows, cs, p, next, |cs|, k);
      if added[k].id in ids {
        RetiredAreOld(rows, cs, |rows|, added[k].id);
      }
    }
    WithoutNone(added, ids);
  }

  lemma NothingOffered(rows: seq<Row>, cs: seq<Candidate>, p: Parser, next: int)
    ensures New(rows, cs, p, next, 0) == []
  {
  }

  /** A load keeps ids distinct, and below the next the sequence gives. */
  lemma {:induction false} LoadedIds(rows: seq<Row>, candidates: seq<Candidate>, p: Parser, next: int)
    requires DistinctRowIds(rows) && forall r :: r in rows ==> r.id < next
    ensures var after := Loaded(rows, candidates, p, next);
      && DistinctRowIds(after)
      && forall r :: r in after ==> r.id < next + ResultOf(rows, candidates, p, next).inserted
  {
    hide Deduped, Kept, New, Reconciled, IsRetired, IsHeld, Tally, RetiredIds, StrandedCount;
    var cs := Deduped(candidates);
    var after := Loaded(rows, candidates, p, next);
    var kept, added := Kept(rows, cs, p, |rows|), New(rows, cs, p, next, |cs|);
    forall k | 0 <= k < |after|
      ensures if k < |kept| then after[k].id < next else after[k].id == next + (k - |kept|)
    {
      if k < |kept| {
        var i := KeptOrigin(rows, cs, p, |rows|, k);
        assert rows[i] in rows;
      } else {
        NewIds(rows, cs, p, next, |cs|, k - |kept|);
      }
    }
    forall k, l | 0 <= k < l < |kept| ensures kept[k].id != kept[l].id {
      var i := KeptOrigin(rows, cs, p, |rows|, k);
      var j := KeptOrigin(rows, cs, p, |rows|, l);
      assert i != j;
    }
  }

  class FactTable {
    var rows: seq<Row>
    var nextId: int

    constructor (rows: seq<Row>, nextId: int)
      ensures this.rows == rows && this.nextId == nextId
    {
      this.rows, this.nextId := rows, nextId;
    }

    /** UPDATE of one row; every statement of `Reconcile` sets columns on one id. */
    method Update(id: int, row: Row)
      modifies this`rows
      ensures rows == Replaced(old(rows), id, row)
    {
      rows := Replaced(rows, id, row);
    }

    /** Update a held row from its candidate, one statement per group of columns. */
    method Reconcile(row: Row, c: Candidate, p: Parser) returns (located: bool, alreadyReviewed: bool, refreshed: bool)
      modifies this`rows
      requires forall i :: 0 <= i < |rows| && rows[i].id == row.id ==> rows[i] == row
      ensures rows == Replaced(old(rows), row.id, Reconciled(row, c, p))
      ensures located <==> GainsBox(row, c)
      ensures alreadyReviewed <==> IsDecided(row)
      ensures refreshed <==> IsRefreshed(row, p)
    {
      var now := row;
      assert rows == Replaced(rows, row.id, now);
      if row.state != Some(c.state) || row.perUnit != c.perUnit {
        now := now.(state := Some(c.state), reason := ReasonColumn(c.reason), perUnit := c.perUnit);
        Update(row.id, now);
      }
      if row.readingConfidence != c.readingConfidence {
        now := now.(readingConfidence := c.readingConfidence);
        Update(row.id, now);
      }
      located := false;
      if row.box.None? && c.box.Some? {
        now := now.(box := c.box);
        Update(row.id, now);
        located := true;
      }
      if row.review.status != Unverified {
        return located, true, false;
      }
      if row.parserVersion != p.version {
        now := now.(parserVersion := p.version);
        Update(row.id, now);
        return located, false, true;
      }
      return located, false, false;
    }

    /** The rows of the table by identity, a later row replacing an earlier one. */
    method HeldByIdentity() returns (existing: map<CandidateId, Row>)
      ensures IsHeldMap(existing, rows)
    {
      existing := map[];
      for i := 0 to |rows|
        invariant IsHeldMap(existing, rows[..i])
      {
        assert rows[..i + 1][..i] == rows[..i];
        existing := existing[rows[i].what := rows[i]];
      }
      assert rows[..|rows|] == rows;
    }

    /** One candidate per identity, in the order the identities were first offered. */
    method Dedupe(candidates: seq<Candidate>) returns (deduped: seq<Candidate>)
      ensures deduped == Deduped(candidates)
    {
      deduped := [];
      for i := 0 to |candidates|
        invariant deduped == Deduped(candidates[..i])
      {
        var c := candidates[i];
        assert candidates[..i + 1][..i] == candidates[..i];
        var held := Find(deduped, c.what);
        if held.None? {
          deduped := deduped + [c];
        } else if deduped[held.value].perUnit.None? && c.perUnit.Some? {
          deduped := deduped[held.value := c];
        }
      }
      assert candidates[..|candidates|] == candidates;
    }

    /** Undecided rows the parser stopped producing, and a count of decided ones. */
    method Stale(rows: seq<Row>, existing: map<CandidateId, Row>, cs: seq<Candidate>) returns (retire: seq<int>, stranded: nat)
      requires IsHeldMap(existing, rows) && DistinctRowIds(rows)
      ensures retire == RetiredIds(rows, cs, |rows|)
      ensures stranded == StrandedCount(rows, cs, |rows|)
    {
      hide Find, HeldRow, IsHeld;
      retire, stranded := [], 0;
      for i := 0 to |rows|
        invariant retire == RetiredIds(rows, cs, i)
        invariant stranded == StrandedCount(rows, cs, i)
      {
        var row := rows[i];
        HeldById(rows, i);
        var produced := Find(cs, row.what).Some?;
        if existing[row.what].id == row.id && !produced {
          if row.review.status == Unverified {
            retire := retire + [row.id];
          } else {
            stranded := stranded + 1;
          }
        }
      }
    }

    /** See to one candidate: reconcile the row held for it, or offer it as a new one. */
    method SeeToOne(existing: map<CandidateId, Row>, cs: seq<Candidate>, n: nat, p: Parser, counted: Counts,
                    ghost was: seq<Row>, ghost next: int)
      returns (inserted: nat, counts: Counts)
      requires n < |cs| && DistinctCandidates(cs)
      requires DistinctRowIds(was) && forall r :: r in was ==> r.id < next
      requires IsHeldMap(existing, was)
      requires rows == Midway(was, cs, p, next, n) && nextId == next + |New(was, cs, p, next, n)|
      modifies this
      ensures rows == Midway(was, cs, p, next, n + 1) && nextId == old(nextId) + inserted
      ensures |New(was, cs, p, next, n + 1)| == |New(was, cs, p, next, n)| + inserted
      ensures counts == Tallied(counted, HeldRow(was, cs[n].what), cs[n], p)
    {
      hide Midway, Reconciled, HeldRow, Find, IsHeld, GainsBox, IsDecided, IsRefreshed, DistinctCandidates, DistinctRowIds;
      var c := cs[n];
      if c.what in existing {
        var row := existing[c.what];
        ghost var i := HeldPosition(was, c.what);
        MidwayHeld(was, cs, p, next, n, i);
        MidwayIds(was, cs, p, next, n, i);
        var located, reviewed, refreshed := Reconcile(row, c, p);
        counts := Counts(counted.reviewed + One(reviewed), counted.refreshed + One(refreshed), counted.located + One(located));
        return 0, counts;
      }
      assert HeldRow(was, c.what) == None;
      MidwayNew(was, cs, p, next, n);
      rows := rows + [Offered(c, p, nextId)];
      nextId := nextId + 1;
      return 1, counted;
    }

    /** See to every candidate in turn. */
    method SeeTo(existing: map<CandidateId, Row>, cs: seq<Candidate>, p: Parser) returns (inserted: nat, counts: Counts)
      requires DistinctRowIds(rows) && forall r :: r in rows ==> r.id < nextId
      requires IsHeldMap(existing, rows) && DistinctCandidates(cs)
      modifies this
      ensures rows == Midway(old(rows), cs, p, old(nextId), |cs|)
      ensures inserted == |New(old(rows), cs, p, old(nextId), |cs|)| && nextId == old(nextId) + inserted
      ensures counts == Tally(old(rows), cs, p, |cs|)
    {
      hide Midway, HeldRow, IsHeldMap, DistinctCandidates, DistinctRowIds, New, Tallied;
      ghost var was, next := rows, nextId;
      MidwayStart(was, cs, p, next);
      NothingOffered(was, cs, p, next);
      inserted, counts := 0, Counts(0, 0, 0);
      for n := 0 to |cs|
        invariant rows == Midway(was, cs, p, next, n)
        invariant inserted == |New(was, cs, p, next, n)| && nextId == next + inserted
        invariant counts == Tally(was, cs, p, n)
      {
        var added: nat;
        added, counts := SeeToOne(existing, cs, n, p, counts, was, next);
        inserted := inserted + added;
      }
    }

    /** Load one document's candidates; the table it leaves can be loaded again. */
    method LoadFactCandidates(candidates: seq<Candidate>, p: Parser) returns (result: LoadResult)
      requires DistinctRowIds(rows) && forall r :: r in rows ==> r.id < nextId
      modifies this
      ensures rows == Loaded(old(rows), candidates, p, old(nextId))
      ensures result == ResultOf(old(rows), candidates, p, old(nextId))
      ensures nextId == old(nextId) + result.inserted
      ensures DistinctRowIds(rows) && forall r :: r in rows ==> r.id < nextId
    {
      hide Midway, Deduped, Loaded, Tally, DistinctRowIds;
      LoadedIds(rows, candidates, p, nextId);
      var was := rows;
      var existing := HeldByIdentity();
      var cs := Dedupe(candidates);
      DedupeKeepsTheDenominator(candidates);
      DeletingCompletes(was, candidates, p, nextId);
      var inserted, counts := SeeTo(existing, cs, p);
      var retire, stranded := Stale(was, existing, cs);
      rows := Without(rows, retire);
      result := LoadResult(inserted, counts.reviewed, |retire|, stranded, counts.refreshed, counts.located);
    }
  }

  lemma OnlyOneHeld(rows: seq<Row>, i: nat, k: nat)
    requires i < |rows| && k < |rows| && rows[i].what == rows[k].what && IsHeld(rows, k)
    ensures IsHeld(rows, i) <==> i == k
  {
  }

  lemma HeldById(rows: seq<Row>, i: nat)
    requires i < |rows| && DistinctRowIds(rows)
    ensures HeldRow(rows, rows[i].what).Some?
    ensures HeldRow(rows, rows[i].what).value.id == rows[i].id <==> IsHeld(rows, i)
  {
    assert HasRow(rows, rows[i].what);
    var k: nat :| k < |rows| && IsHeld(rows, k) && Some(rows[k]) == HeldRow(rows, rows[i].what) && rows[k].what == rows[i].what;
    OnlyOneHeld(rows, i, k);
  }

  lemma HeldPosition(rows: seq<Row>, what: CandidateId) returns (i: nat)
    requires HeldRow(rows, what).Some?
    ensures i < |rows| && IsHeld(rows, i) && HeldRow(rows, what) == Some(rows[i]) && rows[i].what == what
  {
    i :| i < |rows| && IsHeld(rows, i) && Some(rows[i]) == HeldRow(rows, what) && rows[i].what == what;
  }

  /** Only the held row itself carries its id, whatever has been inserted since. */
  lemma MidwayIds(rows: seq<Row>, cs: seq<Candidate>, p: Parser, next: int, n: nat, i: nat)
    requires n <= |cs| && i < |rows| && DistinctRowIds(rows) && forall r :: r in rows ==> r.id < next
    ensures var m := Midway(rows, cs, p, next, n);
      forall k :: 0 <= k < |m| && m[k].id == rows[i].id ==> k == i
  {
    var m := Midway(rows, cs, p, next, n);
    forall k | 0 <= k < |m| && k != i ensures m[k].id != rows[i].id {
      if k >= |rows| {
        NewIds(rows, cs, p, next, n, k - |rows|);
        assert rows[i] in rows;
      }
    }
  }
}
