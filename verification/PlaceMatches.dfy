/**
 * One candidate for each place a page names: the first sentence that names it, at the first
 * match no longer name has claimed.
 */
module PlaceMatches {
  import opened Places
  import opened Wrappers

  datatype Span = Span(at: nat, end: nat)

  /** Where a sentence matches each name's pattern, in order. */
  type Hits = map<Entry, seq<Span>>

  function HitsOf(sentence: Hits, e: Entry): seq<Span> {
    if e in sentence then sentence[e] else []
  }

  predicate Overlap(a: Span, b: Span) {
    a.at < b.end && a.end > b.at
  }

  predicate IsClaimed(claimed: seq<Span>, s: Span) {
    exists c :: c in claimed && Overlap(s, c)
  }

  method FirstUnclaimed(hits: seq<Span>, claimed: seq<Span>) returns (found: Option<Span>)
    ensures match found
      case None => forall h :: h in hits ==> IsClaimed(claimed, h)
      case Some(s) =>
        exists i :: 0 <= i < |hits| && s == hits[i] && !IsClaimed(claimed, s)
          && forall j :: 0 <= j < i ==> IsClaimed(claimed, hits[j])
  {
    for i := 0 to |hits|
      invariant forall j :: 0 <= j < i ==> IsClaimed(claimed, hits[j])
    {
      var free := true;
      for c := 0 to |claimed|
        invariant free <==> forall k :: 0 <= k < c ==> !Overlap(hits[i], claimed[k])
      {
        free := free && !Overlap(hits[i], claimed[c]);
      }
      if free {
        assert !IsClaimed(claimed, hits[i]);
        return Some(hits[i]);
      }
    }
    return None;
  }

  /** A candidate: its sentence, its name's rank in the gazetteer, and its span. */
  datatype Found = Found(sentence: nat, rank: nat, entry: Entry, span: Span)

  /** A match overlaps one already taken in its sentence. */
  predicate ClaimedBy(taken: seq<Found>, sentence: nat, h: Span) {
    exists f :: f in taken && f.sentence == sentence && h.at < f.span.end && h.end > f.span.at
  }

  /** One overlaps it that was taken by a name tried before the one at `rank`. */
  predicate ClaimedAhead(out: seq<Found>, sentence: nat, rank: nat, h: Span) {
    exists f :: f in out && f.sentence == sentence && f.rank < rank && h.at < f.span.end && h.end > f.span.at
  }

  /** Every match of a name in a sentence had been claimed by a name tried before it. */
  predicate PassedOver(out: seq<Found>, sentences: seq<Hits>, n: nat, rank: nat, e: Entry)
    requires n < |sentences|
  {
    e in sentences[n] ==> forall h :: h in sentences[n][e] ==> ClaimedAhead(out, n, rank, h)
  }

  ghost predicate AreFound(out: seq<Found>, sentences: seq<Hits>, gazetteer: seq<Entry>) {
    forall i :: 0 <= i < |out| ==>
      out[i].sentence < |sentences| && out[i].rank < |gazetteer| && out[i].entry == gazetteer[out[i].rank]
  }

  /** Of the matches of its name, the first that nothing taken before it claims. */
  predicate IsFirstFree(taken: seq<Found>, f: Found, hits: seq<Span>, h: nat) {
    && h < |hits| && f.span == hits[h] && !ClaimedBy(taken, f.sentence, f.span)
    && forall k :: 0 <= k < h ==> ClaimedBy(taken, f.sentence, hits[k])
  }

  ghost predicate TookFirstFree(taken: seq<Found>, f: Found, sentences: seq<Hits>) {
    && f.sentence < |sentences| && f.entry in sentences[f.sentence]
    && exists h :: IsFirstFree(taken, f, sentences[f.sentence][f.entry], h)
  }

  ghost predicate EachFirstFree(out: seq<Found>, sentences: seq<Hits>) {
    forall i :: 0 <= i < |out| ==> TookFirstFree(out[..i], out[i], sentences)
  }

  ghost predicate EachOnce(out: seq<Found>) {
    forall i, j :: 0 <= i < j < |out| ==> out[i].entry != out[j].entry
  }

  /** Sentence by sentence, and in each by the gazetteer's order. */
  ghost predicate InTurn(out: seq<Found>) {
    forall i, j :: 0 <= i < j < |out| ==>
      out[i].sentence < out[j].sentence || (out[i].sentence == out[j].sentence && out[i].rank < out[j].rank)
  }

  predicate IsOut(out: seq<Found>, e: Entry) {
    exists i :: 0 <= i < |out| && out[i].entry == e
  }

  /** A name is passed over in every sentence before the one that has it, or in all of them. */
  ghost predicate FirstSentence(out: seq<Found>, sentences: seq<Hits>, rank: nat, e: Entry, before: nat)
    requires before <= |sentences|
  {
    forall n :: 0 <= n < before && (forall f :: f in out && f.entry == e ==> n < f.sentence) ==>
      PassedOver(out, sentences, n, rank, e)
  }

  lemma PlaceValueNamesOne(a: Entry, b: Entry)
    requires PlaceValue(a.name, a.level) == PlaceValue(b.name, b.level)
    ensures a == b
  {
    var s, t := PlaceValue(a.name, a.level), PlaceValue(b.name, b.level);
    assert s[|s| - 1] == Suffix(a.level)[|Suffix(a.level)| - 1];
    assert t[|t| - 1] == Suffix(b.level)[|Suffix(b.level)| - 1];
    assert a.level == b.level;
    assert s[..|a.name|] == a.name && t[..|b.name|] == b.name;
  }

  lemma {:induction false} StillFirst(out: seq<Found>, f: Found, sentences: seq<Hits>, rank: nat, e: Entry, before: nat)
    requires before <= |sentences| && FirstSentence(out, sentences, rank, e, before)
    ensures FirstSentence(out + [f], sentences, rank, e, before)
  {
    var more := out + [f];
    assert forall g :: g in out ==> g in more;
    forall n | 0 <= n < before && (forall g :: g in more && g.entry == e ==> n < g.sentence)
      ensures PassedOver(more, sentences, n, rank, e)
    {
      assert PassedOver(out, sentences, n, rank, e);
      forall h | h in HitsOf(sentences[n], e) ensures ClaimedAhead(more, n, rank, h) {
        assert ClaimedAhead(out, n, rank, h);
        var g :| g in out && g.sentence == n && g.rank < rank && h.at < g.span.end && h.end > g.span.at;
        assert g in more;
      }
    }
  }

  /** Past a sentence that has the name, or where every match of it was claimed. */
  lemma PastSentence(out: seq<Found>, sentences: seq<Hits>, rank: nat, e: Entry, n: nat)
    requires n < |sentences| && FirstSentence(out, sentences, rank, e, n)
    requires (exists i :: 0 <= i < |out| && out[i].entry == e && out[i].sentence <= n) || PassedOver(out, sentences, n, rank, e)
    ensures FirstSentence(out, sentences, rank, e, n + 1)
  {
    hide PassedOver;
    if i :| 0 <= i < |out| && out[i].entry == e && out[i].sentence <= n {
      assert out[i] in out;
    }
  }

  lemma AllStillFirst(out: seq<Found>, f: Found, sentences: seq<Hits>, gazetteer: seq<Entry>, upTo: nat, before: nat)
    requires before <= |sentences| && upTo <= |gazetteer|
    requires forall k :: 0 <= k < upTo ==> FirstSentence(out, sentences, k, gazetteer[k], before)
    ensures forall k :: 0 <= k < upTo ==> FirstSentence(out + [f], sentences, k, gazetteer[k], before)
  {
    hide FirstSentence;
    forall k | 0 <= k < upTo ensures FirstSentence(out + [f], sentences, k, gazetteer[k], before) {
      StillFirst(out, f, sentences, k, gazetteer[k], before);
    }
  }

  lemma FoundIsPast(out: seq<Found>, f: Found, sentences: seq<Hits>)
    requires f.sentence < |sentences| && FirstSentence(out + [f], sentences, f.rank, f.entry, f.sentence)
    ensures FirstSentence(out + [f], sentences, f.rank, f.entry, f.sentence + 1)
  {
    hide FirstSentence;
    assert (out + [f])[|out|] == f;
    PastSentence(out + [f], sentences, f.rank, f.entry, f.sentence);
  }

  /** What a page's candidates keep as they are found, sentence by sentence and name by name. */
  ghost predicate Candidates(out: seq<Found>, sentences: seq<Hits>, gazetteer: seq<Entry>, n: nat, seen: set<string>) {
    && AreFound(out, sentences, gazetteer) && EachOnce(out) && EachFirstFree(out, sentences) && InTurn(out)
    && (forall i :: 0 <= i < |out| ==> out[i].sentence <= n)
    && (forall e :: e in gazetteer ==> (PlaceValue(e.name, e.level) in seen <==> IsOut(out, e)))
  }

  /** `claimed` are the spans taken in sentence `n`, all by names tried before the one at `rank`. */
  ghost predicate Claims(out: seq<Found>, n: nat, rank: nat, claimed: seq<Span>) {
    && (forall s :: s in claimed ==> exists i :: 0 <= i < |out| && out[i].sentence == n && out[i].span == s)
    && (forall i :: 0 <= i < |out| && out[i].sentence == n ==> out[i].span in claimed && out[i].rank < rank)
  }

  lemma ClaimedIsClaimed(out: seq<Found>, n: nat, rank: nat, claimed: seq<Span>, h: Span)
    requires Claims(out, n, rank, claimed)
    ensures IsClaimed(claimed, h) <==> ClaimedBy(out, n, h)
    ensures IsClaimed(claimed, h) ==> ClaimedAhead(out, n, rank, h)
  {
    if IsClaimed(claimed, h) {
      var c :| c in claimed && Overlap(h, c);
      var i :| 0 <= i < |out| && out[i].sentence == n && out[i].span == c;
      assert out[i] in out;
    }
    if ClaimedBy(out, n, h) {
      var f :| f in out && f.sentence == n && h.at < f.span.end && h.end > f.span.at;
      var i :| 0 <= i < |out| && out[i] == f;
      assert out[i].span in claimed;
    }
  }

  lemma {:induction false} FoundIsFirstFree(out: seq<Found>, sentences: seq<Hits>, claimed: seq<Span>, f: Found, h: nat)
    requires Claims(out, f.sentence, f.rank, claimed) && f.sentence < |sentences|
    requires var hits := HitsOf(sentences[f.sentence], f.entry);
      && h < |hits| && f.span == hits[h] && !IsClaimed(claimed, hits[h])
      && forall k :: 0 <= k < h ==> IsClaimed(claimed, hits[k])
    requires EachFirstFree(out, sentences)
    ensures EachFirstFree(out + [f], sentences)
  {
    hide Claims, IsClaimed, ClaimedBy;
    var hits, more := HitsOf(sentences[f.sentence], f.entry), out + [f];
    forall k | 0 <= k < |hits| ensures IsClaimed(claimed, hits[k]) <==> ClaimedBy(out, f.sentence, hits[k]) {
      ClaimedIsClaimed(out, f.sentence, f.rank, claimed, hits[k]);
    }
    assert IsFirstFree(out, f, hits, h);
    assert TookFirstFree(out, f, sentences);
    hide TookFirstFree;
    forall i | 0 <= i < |more| ensures TookFirstFree(more[..i], more[i], sentences) {
      if i < |out| {
        assert more[..i] == out[..i] && more[i] == out[i];
      } else {
        assert more[..i] == out && more[i] == f;
      }
    }
  }

  lemma {:induction false} OneMoreSeen(out: seq<Found>, gazetteer: seq<Entry>, seen: set<string>, f: Found)
    requires forall e :: e in gazetteer ==> (PlaceValue(e.name, e.level) in seen <==> IsOut(out, e))
    ensures var value := PlaceValue(f.entry.name, f.entry.level);
      forall e :: e in gazetteer ==> (PlaceValue(e.name, e.level) in seen + {value} <==> IsOut(out + [f], e))
  {
    hide PlaceValue;
    var more, value := out + [f], PlaceValue(f.entry.name, f.entry.level);
    assert forall i :: 0 <= i < |out| ==> more[i] == out[i];
    forall e | e in gazetteer ensures PlaceValue(e.name, e.level) in seen + {value} <==> IsOut(more, e) {
      if PlaceValue(e.name, e.level) == value {
        PlaceValueNamesOne(e, f.entry);
        assert more[|out|].entry == e;
      } else if IsOut(out, e) {
        var i :| 0 <= i < |out| && out[i].entry == e;
        assert more[i].entry == e;
      }
    }
  }

  lemma {:induction false} OneMoreClaim(out: seq<Found>, claimed: seq<Span>, f: Found)
    requires Claims(out, f.sentence, f.rank, claimed)
    ensures Claims(out + [f], f.sentence, f.rank + 1, claimed + [f.span])
  {
    var more := out + [f];
    forall s | s in claimed + [f.span]
      ensures exists i :: 0 <= i < |more| && more[i].sentence == f.sentence && more[i].span == s
    {
      if s in claimed {
        var i :| 0 <= i < |out| && out[i].sentence == f.sentence && out[i].span == s;
        assert more[i].span == s;
      } else {
        assert more[|out|].span == s;
      }
    }
  }

  lemma {:induction false} OneMoreFound(out: seq<Found>, sentences: seq<Hits>, gazetteer: seq<Entry>,
      seen: set<string>, claimed: seq<Span>, f: Found, h: nat)
    requires Candidates(out, sentences, gazetteer, f.sentence, seen) && Claims(out, f.sentence, f.rank, claimed)
    requires f.sentence < |sentences| && f.rank < |gazetteer| && f.entry == gazetteer[f.rank]
    requires PlaceValue(f.entry.name, f.entry.level) !in seen
    requires var hits := HitsOf(sentences[f.sentence], f.entry);
      && h < |hits| && f.span == hits[h] && !IsClaimed(claimed, hits[h])
      && forall k :: 0 <= k < h ==> IsClaimed(claimed, hits[k])
    ensures Candidates(out + [f], sentences, gazetteer, f.sentence, seen + {PlaceValue(f.entry.name, f.entry.level)})
    ensures Claims(out + [f], f.sentence, f.rank + 1, claimed + [f.span])
  {
    hide HitsOf, PlaceValue, IsClaimed, IsOut;
    FoundIsFirstFree(out, sentences, claimed, f, h);
    OneMoreSeen(out, gazetteer, seen, f);
    OneMoreClaim(out, claimed, f);
    NotOutYet(out, gazetteer, seen, f);
    OneMoreInTurn(out, claimed, f);
    hide EachFirstFree, Claims, InTurn, EachOnce;
    assert AreFound(out + [f], sentences, gazetteer);
  }

  /** A name not seen is not out, so adding it keeps each name once. */
  lemma NotOutYet(out: seq<Found>, gazetteer: seq<Entry>, seen: set<string>, f: Found)
    requires forall e :: e in gazetteer ==> (PlaceValue(e.name, e.level) in seen <==> IsOut(out, e))
    requires f.rank < |gazetteer| && f.entry == gazetteer[f.rank]
    requires PlaceValue(f.entry.name, f.entry.level) !in seen && EachOnce(out)
    ensures EachOnce(out + [f])
  {
    hide PlaceValue;
    assert f.entry in gazetteer;
    assert !IsOut(out, f.entry);
  }

  lemma OneMoreInTurn(out: seq<Found>, claimed: seq<Span>, f: Found)
    requires InTurn(out) && Claims(out, f.sentence, f.rank, claimed)
    requires forall i :: 0 <= i < |out| ==> out[i].sentence <= f.sentence
    ensures InTurn(out + [f])
  {
    forall i | 0 <= i < |out|
      ensures out[i].sentence < f.sentence || (out[i].sentence == f.sentence && out[i].rank < f.rank)
    {
    }
  }

  lemma AllClaimed(out: seq<Found>, sentences: seq<Hits>, n: nat, rank: nat, claimed: seq<Span>, e: Entry)
    requires n < |sentences| && Claims(out, n, rank, claimed)
    requires forall h :: h in HitsOf(sentences[n], e) ==> IsClaimed(claimed, h)
    ensures PassedOver(out, sentences, n, rank, e)
  {
    hide Claims, IsClaimed;
    forall h | h in HitsOf(sentences[n], e) ensures ClaimedAhead(out, n, rank, h) {
      ClaimedIsClaimed(out, n, rank, claimed, h);
    }
  }

  lemma {:induction false} NoneOverlap(out: seq<Found>, sentences: seq<Hits>, i: nat, j: nat)
    requires EachFirstFree(out, sentences) && i < j < |out| && out[i].sentence == out[j].sentence
    ensures out[j].span.at >= out[i].span.end || out[j].span.end <= out[i].span.at
  {
    assert TookFirstFree(out[..j], out[j], sentences);
    var h :| IsFirstFree(out[..j], out[j], HitsOf(sentences[out[j].sentence], out[j].entry), h);
    assert out[..j][i] in out[..j];
  }

  /**
   * One page: every candidate names a place of the gazetteer, once, at the first match of its
   * name that no name tried earlier in the sentence claims; and a name is in no earlier sentence,
   * or in none, only where each of its matches was so claimed.
   */
  method PlacesIn(sentences: seq<Hits>, gazetteer: seq<Entry>) returns (out: seq<Found>)
    ensures AreFound(out, sentences, gazetteer) && EachOnce(out) && InTurn(out)
    ensures EachFirstFree(out, sentences)
    ensures forall i, j :: 0 <= i < j < |out| && out[i].sentence == out[j].sentence ==>
      out[j].span.at >= out[i].span.end || out[j].span.end <= out[i].span.at
    ensures forall g :: 0 <= g < |gazetteer| ==> FirstSentence(out, sentences, g, gazetteer[g], |sentences|)
  {
    hide PlaceValue, HitsOf, PassedOver, Overlap, IsClaimed, EachFirstFree;
    out := [];
    var seen: set<string> := {};
    NothingFound(sentences, gazetteer);
    for n := 0 to |sentences|
      invariant Candidates(out, sentences, gazetteer, n, seen)
      invariant forall i :: 0 <= i < |out| ==> out[i].sentence < n
      invariant forall g :: 0 <= g < |gazetteer| ==> FirstSentence(out, sentences, g, gazetteer[g], n)
    {
      out, seen := PlacesInSentence(out, seen, sentences, n, gazetteer);
    }
    forall i, j | 0 <= i < j < |out| && out[i].sentence == out[j].sentence
      ensures out[j].span.at >= out[i].span.end || out[j].span.end <= out[i].span.at
    {
      NoneOverlap(out, sentences, i, j);
    }
  }

  lemma NothingFound(sentences: seq<Hits>, gazetteer: seq<Entry>)
    ensures Candidates([], sentences, gazetteer, 0, {})
  {
    hide PlaceValue;
  }

  /** Where one sentence stands once the first `g` names of the gazetteer have been tried in it. */
  ghost predicate Tried(out: seq<Found>, seen: set<string>, claimed: seq<Span>,
                        sentences: seq<Hits>, gazetteer: seq<Entry>, n: nat, g: nat)
    requires n < |sentences| && g <= |gazetteer|
  {
    && Candidates(out, sentences, gazetteer, n, seen) && Claims(out, n, g, claimed)
    && (forall k :: 0 <= k < |gazetteer| ==> FirstSentence(out, sentences, k, gazetteer[k], n))
    && (forall k :: 0 <= k < g ==> FirstSentence(out, sentences, k, gazetteer[k], n + 1))
  }

  /** A name seen already, or with every match claimed, is passed by. */
  lemma {:induction false} NameIsPassed(out: seq<Found>, seen: set<string>, claimed: seq<Span>,
                                        sentences: seq<Hits>, gazetteer: seq<Entry>, n: nat, g: nat)
    requires n < |sentences| && g < |gazetteer| && Tried(out, seen, claimed, sentences, gazetteer, n, g)
    requires var e := gazetteer[g];
      PlaceValue(e.name, e.level) in seen || forall h :: h in HitsOf(sentences[n], e) ==> IsClaimed(claimed, h)
    ensures Tried(out, seen, claimed, sentences, gazetteer, n, g + 1)
  {
    hide PlaceValue, HitsOf, PassedOver, FirstSentence, IsClaimed, AreFound, EachOnce, EachFirstFree, InTurn;
    var e := gazetteer[g];
    assert e in gazetteer;
    if PlaceValue(e.name, e.level) !in seen {
      AllClaimed(out, sentences, n, g, claimed, e);
    }
    PastSentence(out, sentences, g, e, n);
  }

  /** A name found is taken. */
  lemma {:induction false} NameIsFound(out: seq<Found>, seen: set<string>, claimed: seq<Span>,
                                       sentences: seq<Hits>, gazetteer: seq<Entry>, f: Found, h: nat)
    requires f.sentence < |sentences| && f.rank < |gazetteer| && f.entry == gazetteer[f.rank]
    requires Tried(out, seen, claimed, sentences, gazetteer, f.sentence, f.rank)
    requires PlaceValue(f.entry.name, f.entry.level) !in seen
    requires var hits := HitsOf(sentences[f.sentence], f.entry);
      && h < |hits| && f.span == hits[h] && !IsClaimed(claimed, hits[h])
      && forall k :: 0 <= k < h ==> IsClaimed(claimed, hits[k])
    ensures Tried(out + [f], seen + {PlaceValue(f.entry.name, f.entry.level)}, claimed + [f.span],
                  sentences, gazetteer, f.sentence, f.rank + 1)
  {
    hide PlaceValue, HitsOf, FirstSentence, IsClaimed, Candidates, Claims;
    OneMoreFound(out, sentences, gazetteer, seen, claimed, f, h);
    AllStillFirst(out, f, sentences, gazetteer, |gazetteer|, f.sentence);
    AllStillFirst(out, f, sentences, gazetteer, f.rank, f.sentence + 1);
    FoundIsPast(out, f, sentences);
  }

  method PlacesInSentence(outBefore: seq<Found>, seenBefore: set<string>, sentences: seq<Hits>, n: nat, gazetteer: seq<Entry>)
    returns (out: seq<Found>, seen: set<string>)
    requires n < |sentences| && Candidates(outBefore, sentences, gazetteer, n, seenBefore)
    requires forall i :: 0 <= i < |outBefore| ==> outBefore[i].sentence < n
    requires forall g :: 0 <= g < |gazetteer| ==> FirstSentence(outBefore, sentences, g, gazetteer[g], n)
    ensures Candidates(out, sentences, gazetteer, n, seen)
    ensures forall g :: 0 <= g < |gazetteer| ==> FirstSentence(out, sentences, g, gazetteer[g], n + 1)
  {
    hide PlaceValue, HitsOf, FirstSentence, IsClaimed, Candidates;
    out, seen := outBefore, seenBefore;
    var claimed: seq<Span> := [];
    assert Tried(out, seen, claimed, sentences, gazetteer, n, 0);
    for g := 0 to |gazetteer|
      invariant Tried(out, seen, claimed, sentences, gazetteer, n, g)
    {
      hide Tried;
      var entry := gazetteer[g];
      var value := PlaceValue(entry.name, entry.level);
      if value in seen {
        NameIsPassed(out, seen, claimed, sentences, gazetteer, n, g);
        continue;
      }
      var found := FirstUnclaimed(HitsOf(sentences[n], entry), claimed);
      if found.None? {
        NameIsPassed(out, seen, claimed, sentences, gazetteer, n, g);
        continue;
      }
      var f := Found(n, g, entry, found.value);
      ghost var h: nat :| h < |HitsOf(sentences[n], entry)| && found.value == HitsOf(sentences[n], entry)[h]
        && !IsClaimed(claimed, found.value)
        && forall j :: 0 <= j < h ==> IsClaimed(claimed, HitsOf(sentences[n], entry)[j]);
      NameIsFound(out, seen, claimed, sentences, gazetteer, f, h);
      claimed := claimed + [found.value];
      seen := seen + {value};
      out := out + [f];
    }
  }
}
