/**
 * A figure traces back to its page: from a match in a sentence, through the collapsed text and
 * the stored text, to a box around the items that were printed.
 */
module FigureRegions {
  import opened PageText
  import opened Sentences
  import opened TextItems
  import opened Wrappers

  // ----- What a sentence says about its page -----

  /** Each character is the page's own, or a space for white space, and positions only go up. */
  ghost predicate ReadsFrom(s: Sentence, page: Text) {
    && |s.text| == |s.source|
    && Ascends(s.source)
    && (forall i :: 0 <= i < |s.source| ==> s.source[i] < |page|)
    && (forall i :: 0 <= i < |s.source| ==>
          s.text[i] == if IsSpace(page[s.source[i]]) then 0x20 else page[s.source[i]])
  }

  /** Nothing but white space is passed over between two characters of a sentence. */
  ghost predicate PassesOnlySpace(s: Sentence, page: Text) {
    forall p, i :: 0 <= i < |s.source| - 1 && s.source[i] < p < s.source[i + 1] && p < |page| ==> IsSpace(page[p])
  }

  ghost predicate IsTight(s: Sentence) {
    s.text != [] && !IsSpace(s.text[0]) && !IsSpace(s.text[|s.text| - 1])
  }

  /** A sentence is a range of the collapsed text, with no white space at its ends. */
  lemma {:induction false} SentenceStands(page: Text, k: nat) returns (r: Piece)
    requires k < |LocatedSentences(page)|
    ensures r == SentenceRangesOf(page)[k] && r.start < r.end <= |Collapsed(page)|
    ensures LocatedSentences(page)[k] == SentenceAt(page, r)
    ensures !IsSpace(Collapsed(page)[r.start]) && !IsSpace(Collapsed(page)[r.end - 1])
  {
    var text := Collapsed(page);
    hide IsSpace, IsBreak, Pieces, Trimmed, Sources, Collapsed;
    PiecesApart(text, 0);
    var i := RangesCome(text, Pieces(text, 0), k);
    r := SentenceRangesOf(page)[k];
  }

  lemma {:induction false} OnlySpaceIsPassed(page: Text, h: nat, p: nat)
    requires h + 1 < |Sources(page)| && Sources(page)[h] < p < Sources(page)[h + 1]
    ensures p < |page| && IsSpace(page[p])
  {
    hide IsSpace, Sources;
    var source := Sources(page);
    SourcesAscend(page);
    forall j | 0 <= j < |source| ensures source[j] != p {
      assert j <= h || j >= h + 1;
    }
    if !IsSpace(page[p]) {
      SourcesHold(page, p);
    }
  }

  lemma {:induction false} RangeReadsItsPage(page: Text, r: Piece)
    requires r.start < r.end <= |Collapsed(page)|
    requires !IsSpace(Collapsed(page)[r.start]) && !IsSpace(Collapsed(page)[r.end - 1])
    ensures ReadsFrom(SentenceAt(page, r), page) && IsTight(SentenceAt(page, r))
  {
    hide IsSpace, Sources;
    SourcesAscend(page);
    var s, source := SentenceAt(page, r), Sources(page);
    forall i | 0 <= i < |s.source|
      ensures s.source[i] < |page| && s.text[i] == if IsSpace(page[s.source[i]]) then 0x20 else page[s.source[i]]
    {
      assert s.source[i] == source[r.start + i];
      assert s.text[i] == Collapsed(page)[r.start + i];
    }
    assert s.text[0] == Collapsed(page)[r.start] && s.text[|s.text| - 1] == Collapsed(page)[r.end - 1];
  }

  lemma {:induction false} RangePassesOnlySpace(page: Text, r: Piece)
    requires r.start < r.end <= |Collapsed(page)|
    ensures PassesOnlySpace(SentenceAt(page, r), page)
  {
    hide Collapsed, IsSpace, Sources;
    var source, s := Sources(page), SentenceAt(page, r);
    forall p, j | 0 <= j < |s.source| - 1 && s.source[j] < p < s.source[j + 1] && p < |page|
      ensures IsSpace(page[p])
    {
      assert s.source[j + 1] == source[r.start + j + 1];
      OnlySpaceIsPassed(page, r.start + j, p);
    }
  }

  /** A sentence is a stretch of its page with its white space collapsed and its ends trimmed. */
  lemma {:induction false} SentenceReadsItsPage(page: Text, k: nat)
    requires k < |LocatedSentences(page)|
    ensures var s := LocatedSentences(page)[k];
      ReadsFrom(s, page) && PassesOnlySpace(s, page) && IsTight(s)
  {
    hide *;
    var r := SentenceStands(page, k);
    RangeReadsItsPage(page, r);
    RangePassesOnlySpace(page, r);
  }

  /** Sentences come in page order and share nothing. */
  lemma {:induction false} SentencesAreApart(page: Text, j: nat, k: nat)
    requires j < k < |LocatedSentences(page)|
    ensures var a, b := LocatedSentences(page)[j].source, LocatedSentences(page)[k].source;
      forall x, y :: 0 <= x < |a| && 0 <= y < |b| ==> a[x] < b[y]
  {
    hide Kept, IsSpace, IsBreak, Sources, Collapsed, SentenceRangesOf;
    SourcesAscend(page);
  }

  lemma {:induction false} PlaceReads(page: Text, p: nat)
    requires p < |page| && !IsSpace(page[p])
    ensures p in Sources(page) && Collapsed(page)[Place(Sources(page), p)] == page[p]
  {
    SourcesHold(page, p);
  }

  lemma RangeReads(page: Text, r: Piece, q: nat)
    requires r.start <= q < r.end <= |Collapsed(page)|
    ensures Sources(page)[q] in SentenceAt(page, r).source
  {
    hide Collapsed, Sources;
    assert SentenceAt(page, r).source[q - r.start] == Sources(page)[q];
  }

  lemma {:induction false} SentenceHolds(page: Text, q: nat) returns (k: nat)
    requires q < |Collapsed(page)| && !IsSpace(Collapsed(page)[q]) && !IsBreak(Collapsed(page), q)
    ensures k < |LocatedSentences(page)| && Sources(page)[q] in LocatedSentences(page)[k].source
  {
    var text := Collapsed(page);
    PiecesApart(text, 0);
    hide IsBreak, Pieces, Trimmed, IsSpace, Collapsed, Sources, LocatedSentences, Ranges, Apart, SentenceAt;
    var i := PiecesKeepTheRest(text, 0, q);
    k := RangesHold(text, Pieces(text, 0), i, q);
    var r := SentenceStands(page, k);
    RangeReads(page, r, q);
  }

  /** The splitter loses no text: what is in no sentence is white space or a break's full stop. */
  lemma {:induction false} NoTextIsLost(page: Text, p: nat)
    requires p < |page| && !IsSpace(page[p])
    ensures p in Sources(page)
    ensures var q := Place(Sources(page), p);
      !IsBreak(Collapsed(page), q) ==>
        exists k :: 0 <= k < |LocatedSentences(page)| && p in LocatedSentences(page)[k].source
  {
    hide *;
    PlaceReads(page, p);
    var q := Place(Sources(page), p);
    if !IsBreak(Collapsed(page), q) {
      var k := SentenceHolds(page, q);
      assert p in LocatedSentences(page)[k].source;
    }
  }

  ghost function Place(source: seq<nat>, p: nat): (q: nat)
    requires p in source
    ensures q < |source| && source[q] == p
  {
    var q :| 0 <= q < |source| && source[q] == p;
    q
  }

  /** No sentence runs across a break. */
  lemma {:induction false} NoSentenceHoldsABreak(page: Text, k: nat, q: nat)
    requires k < |LocatedSentences(page)| && Within(q, SentenceRangesOf(page)[k])
    ensures q < |Collapsed(page)| && !IsBreak(Collapsed(page), q)
  {
    var text := Collapsed(page);
    hide IsBreak, Pieces, Trimmed, Collapsed;
    PiecesApart(text, 0);
    var i := RangesCome(text, Pieces(text, 0), k);
    PiecesHoldNoBreak(text, 0, i, q);
  }

  // ----- Locating -----

  /** The region of a match at `[begin, end)` in a sentence, or none where it has no place. */
  function Locate(items: seq<TextItem>, s: Sentence, begin: nat, end: nat): Option<Box> {
    if begin >= |s.source| || end == 0 || end > |s.source| then None
    else BoxAround(items, s.source[begin], s.source[end - 1] + 1)
  }

  /**
   * From the printed items to the box: a match with any ink in it has a box, every character of
   * ink in it was printed by one of the items touched, and the box covers that item.
   */
  lemma {:induction false} FigureTracesBack(page: seq<RawItem>, k: nat, begin: nat, end: nat, i: nat)
    returns (item: TextItem)
    requires k < |LocatedSentences(ContentOf(page))|
    requires begin <= i < end <= |LocatedSentences(ContentOf(page))[k].text|
    requires !IsSpace(LocatedSentences(ContentOf(page))[k].text[i])
    ensures var s := LocatedSentences(ContentOf(page))[k];
      && item in ContentItems(page) && item.index < |page|
      && s.text[i] in page[item.index].str
      && item.charStart <= s.source[i] < item.charEnd
      && Touches(item, s.source[begin], s.source[end - 1] + 1)
      && var box := Locate(ContentItems(page), s, begin, end);
      && box.Some? && Covers(box.value, item)
  {
    hide ContentOf, ContentItems, LocatedSentences, IsSpace, Covers, BoxAround, PassesOnlySpace, Ascends;
    var content := ContentOf(page);
    var s := LocatedSentences(content)[k];
    SentenceReadsItsPage(content, k);
    assert s.text[i] == content[s.source[i]] != NEWLINE by {
      SpaceIsSpace();
    }
    item := EveryCharacterHasItsItem(page, s.source[i]);
    assert s.source[begin] <= s.source[i] <= s.source[end - 1] by {
      AscendsWeakly(s.source, begin, i);
      AscendsWeakly(s.source, i, end - 1);
    }
    BoxIsSmallest(ContentItems(page), s.source[begin], s.source[end - 1] + 1, Box(0.0, 0.0, 0.0, 0.0));
  }

  lemma SpaceIsSpace()
    ensures IsSpace(SPACE) && IsSpace(NEWLINE)
  {
  }

  lemma AscendsWeakly(source: seq<nat>, a: nat, b: nat)
    requires Ascends(source) && a <= b < |source|
    ensures source[a] <= source[b]
  {
  }
}
