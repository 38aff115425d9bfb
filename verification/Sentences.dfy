/**
 * Sentences of a page, each carrying where every one of its characters stands.
 *
 * White space is collapsed before the text is split, so an index into a sentence says nothing of
 * the stored text: the positions are carried along, never searched for.
 */
module Sentences {
  import opened PageText
  import opened Wrappers

  // ----- Collapsing white space -----

  /** A white space character after another is dropped; anything else is kept. */
  predicate Kept(page: Text, i: nat)
    requires i < |page|
  {
    !(IsSpace(page[i]) && i > 0 && IsSpace(page[i - 1]))
  }

  function Collapsing(u: Unit): Unit {
    if IsSpace(u) then SPACE else u
  }

  ghost predicate Ascends(source: seq<nat>) {
    forall i, j :: 0 <= i < j < |source| ==> source[i] < source[j]
  }

  /** Where each character of the collapsed text came from. */
  function Sources(page: Text): (source: seq<nat>)
    ensures forall k :: 0 <= k < |source| ==> source[k] < |page|
  {
    if page == [] then []
    else
      var n := |page| - 1;
      Sources(page[..n]) + if Kept(page, n) then [n] else []
  }

  function Collapsed(page: Text): (text: Text)
    ensures |text| == |Sources(page)|
  {
    var source := Sources(page);
    seq(|source|, k requires 0 <= k < |source| => Collapsing(page[source[k]]))
  }

  method CollapseWhitespace(page: Text) returns (collapsed: Text, source: seq<nat>)
    ensures source == Sources(page) && collapsed == Collapsed(page)
  {
    collapsed, source := [], [];
    var inRun := false;
    for i := 0 to |page|
      invariant inRun <==> i > 0 && IsSpace(page[i - 1])
      invariant source == Sources(page[..i])
      invariant |collapsed| == |source|
      invariant forall k :: 0 <= k < |source| ==> collapsed[k] == Collapsing(page[source[k]])
    {
      assert page[..i + 1][..i] == page[..i];
      var isSpace := IsSpace(page[i]);
      if isSpace && inRun {
        continue;
      }
      collapsed := collapsed + [if isSpace then SPACE else page[i]];
      source := source + [i];
      inRun := isSpace;
    }
    assert page[..|page|] == page;
  }

  lemma {:induction false} SourcesAscend(page: Text)
    ensures Ascends(Sources(page))
  {
    if page != [] {
      SourcesAscend(page[..|page| - 1]);
    }
  }

  /** Only white space is passed over. */
  lemma {:induction false} SourcesHold(page: Text, p: nat)
    requires p < |page| && !IsSpace(page[p])
    ensures p in Sources(page)
  {
    if p < |page| - 1 {
      SourcesHold(page[..|page| - 1], p);
    }
  }

  lemma {:induction false} SourcesKept(page: Text, k: nat)
    requires k < |Sources(page)|
    ensures Kept(page, Sources(page)[k])
  {
    var n := |page| - 1;
    if k < |Sources(page[..n])| {
      SourcesKept(page[..n], k);
      assert Kept(page[..n], Sources(page)[k]);
    }
  }

  /** No two spaces stand together in the collapsed text. */
  lemma {:induction false} CollapsedIsSingleSpaced(page: Text, q: nat)
    requires q + 1 < |Collapsed(page)|
    ensures !IsSpace(Collapsed(page)[q]) || !IsSpace(Collapsed(page)[q + 1])
  {
    var source := Sources(page);
    var p, r := source[q], source[q + 1];
    SourcesAscend(page);
    SourcesKept(page, q + 1);
    if r - 1 != p && !IsSpace(page[r - 1]) {
      SourcesHold(page, r - 1);
      var k :| 0 <= k < |source| && source[k] == r - 1;
      assert k <= q || k >= q + 1;
    }
    hide Sources;
  }

  // ----- Where sentences break -----

  const FULL_STOP: Unit := 0x2E

  predicate IsUpper(u: Unit) { 0x41 <= u <= 0x5A }

  predicate IsWord(u: Unit) {
    IsUpper(u) || 0x61 <= u <= 0x7A || 0x30 <= u <= 0x39 || u == 0x5F
  }

  /** `word` stands just before `i`, at a word boundary. */
  predicate Follows(text: Text, i: nat, word: Text)
    requires i <= |text|
  {
    |word| <= i && text[i - |word|..i] == word && (i == |word| || !IsWord(text[i - |word| - 1]))
  }

  /** M/s, No and Rs, and any capital: a full stop after these ends an abbreviation. */
  predicate Abbreviated(text: Text, i: nat)
    requires i <= |text|
  {
    || Follows(text, i, [0x4D, 0x2F, 0x73])
    || Follows(text, i, [0x4E, 0x6F])
    || Follows(text, i, [0x52, 0x73])
    || (i > 0 && IsUpper(text[i - 1]))
  }

  /** A capital, a rupee sign or an opening bracket starts the next sentence. */
  predicate Opens(u: Unit) { IsUpper(u) || u == 0x20B9 || u == 0x28 }

  /** The first index at or after `i` that is not white space. */
  function Past(text: Text, i: nat): (n: nat)
    requires i <= |text|
    ensures i <= n <= |text|
    ensures forall q :: i <= q < n ==> IsSpace(text[q])
    ensures n < |text| ==> !IsSpace(text[n])
    decreases |text| - i
  {
    if i < |text| && IsSpace(text[i]) then Past(text, i + 1) else i
  }

  predicate IsBreak(text: Text, i: nat)
    requires i < |text|
  {
    && text[i] == FULL_STOP && !Abbreviated(text, i)
    && var n := Past(text, i + 1); i + 1 < n < |text| && Opens(text[n])
  }

  /** A word of the Latin script, as its code units. */
  function Latin(word: string): (t: Text)
    requires forall k :: 0 <= k < |word| ==> word[k] as int < 0x80
    ensures |t| == |word| && forall k :: 0 <= k < |word| ==> t[k] as int == word[k] as int
  {
    seq(|word|, k requires 0 <= k < |word| => word[k] as int as Unit)
  }

  predicate IsLetterOrDigit(u: Unit) {
    || ('A' as int <= u as int <= 'Z' as int) || ('a' as int <= u as int <= 'z' as int)
    || ('0' as int <= u as int <= '9' as int) || u as int == '_' as int
  }

  /** A text that ends in an abbreviation: M/s, No or Rs as a word of its own, or any capital. */
  ghost predicate EndsAbbreviated(before: Text) {
    || (before != [] && 'A' as int <= before[|before| - 1] as int <= 'Z' as int)
    || EndsIn(before, "M/s") || EndsIn(before, "No") || EndsIn(before, "Rs")
  }

  ghost predicate EndsIn(before: Text, word: string) {
    exists stem :: EndsInWord(before, stem, word)
  }

  ghost predicate EndsInWord(before: Text, stem: Text, word: string) {
    && (forall k :: 0 <= k < |word| ==> word[k] as int < 0x80)
    && before == stem + Latin(word) && (stem == [] || !IsLetterOrDigit(stem[|stem| - 1]))
  }

  /** What follows a break: white space, then a capital, a rupee sign or an opening bracket. */
  ghost predicate GoesOnAnew(rest: Text) {
    exists gap, after :: rest == gap + after && IsGapBeforeOpening(gap, after)
  }

  ghost predicate IsGapBeforeOpening(gap: Text, after: Text) {
    && gap != [] && (forall k :: 0 <= k < |gap| ==> IsSpace(gap[k]))
    && after != [] && ('A' as int <= after[0] as int <= 'Z' as int || after[0] as int in {'₹' as int, '(' as int})
  }

  lemma FollowsIsEnd(text: Text, i: nat, word: string)
    requires i <= |text| && forall k :: 0 <= k < |word| ==> word[k] as int < 0x80
    ensures Follows(text, i, Latin(word)) <==> EndsIn(text[..i], word)
  {
    var w := Latin(word);
    if Follows(text, i, w) {
      var stem := text[..i - |w|];
      assert text[..i] == stem + text[i - |w|..i];
      assert EndsInWord(text[..i], stem, word);
    }
    if stem :| EndsInWord(text[..i], stem, word) {
      assert |text[..i]| == |stem| + |w|;
      assert text[i - |w|..i] == text[..i][|stem|..] == w;
      assert stem == text[..i][..|stem|];
    }
  }

  lemma AbbreviatedIsEnd(text: Text, i: nat)
    requires i <= |text|
    ensures Abbreviated(text, i) <==> EndsAbbreviated(text[..i])
  {
    hide Follows, EndsIn;
    FollowsIsEnd(text, i, "M/s");
    FollowsIsEnd(text, i, "No");
    FollowsIsEnd(text, i, "Rs");
    assert Latin("M/s") == [0x4D, 0x2F, 0x73];
    assert Latin("No") == [0x4E, 0x6F];
    assert Latin("Rs") == [0x52, 0x73];
    assert i > 0 ==> text[..i][i - 1] == text[i - 1];
  }

  lemma PastIsAnew(text: Text, i: nat)
    requires i < |text|
    ensures (var n := Past(text, i + 1); i + 1 < n < |text| && Opens(text[n])) <==> GoesOnAnew(text[i + 1..])
  {
    var n := Past(text, i + 1);
    var rest := text[i + 1..];
    if i + 1 < n < |text| && Opens(text[n]) {
      assert rest == text[i + 1..n] + text[n..];
      assert IsGapBeforeOpening(text[i + 1..n], text[n..]);
    }
    if gap, after :| rest == gap + after && IsGapBeforeOpening(gap, after) {
      CharacterClasses(after[0]);
      assert !IsSpace(after[0]);
      var m := i + 1 + |gap|;
      assert text[m] == rest[|gap|] == after[0];
      assert forall q :: i + 1 <= q < m ==> text[q] == rest[q - i - 1] == gap[q - i - 1];
      hide IsSpace;
      assert n == m;
    }
  }

  /**
   * Where a sentence breaks: at a full stop that ends no abbreviation, with white space after it
   * and then what opens a sentence.
   */
  lemma {:induction false} BreakIsExactly(text: Text, i: nat)
    requires i < |text|
    ensures IsBreak(text, i) <==>
      text[i] as int == '.' as int && !EndsAbbreviated(text[..i]) && GoesOnAnew(text[i + 1..])
  {
    AbbreviatedIsEnd(text, i);
    PastIsAnew(text, i);
    hide Abbreviated, EndsAbbreviated, GoesOnAnew, Past, Opens;
  }

  function NextBreak(text: Text, i: nat): (b: nat)
    requires i <= |text|
    ensures i <= b <= |text|
    ensures b < |text| ==> IsBreak(text, b)
    ensures forall q :: i <= q < b ==> !IsBreak(text, q)
    decreases |text| - i
  {
    if i == |text| || IsBreak(text, i) then i else NextBreak(text, i + 1)
  }

  datatype Piece = Piece(start: nat, end: nat)

  /** What the breaks leave from `cursor` on, the separators dropped whole. */
  function Pieces(text: Text, cursor: nat): seq<Piece>
    requires cursor <= |text|
    decreases |text| - cursor
  {
    var b := NextBreak(text, cursor);
    if b == |text| then [Piece(cursor, b)] else [Piece(cursor, b)] + Pieces(text, Past(text, b + 1))
  }

  method SentenceRanges(text: Text) returns (pieces: seq<Piece>)
    ensures pieces == Pieces(text, 0)
  {
    hide IsBreak;
    pieces := [];
    var cursor := 0;
    var match_ := NextBreak(text, 0);
    while match_ < |text|
      invariant cursor <= |text| && match_ == NextBreak(text, cursor)
      invariant Pieces(text, 0) == pieces + Pieces(text, cursor)
      decreases |text| - cursor
    {
      pieces := pieces + [Piece(cursor, match_)];
      cursor := Past(text, match_ + 1);
      match_ := NextBreak(text, cursor);
    }
    pieces := pieces + [Piece(cursor, |text|)];
  }

  ghost predicate Apart(pieces: seq<Piece>, lo: nat, hi: nat) {
    && (forall i :: 0 <= i < |pieces| ==> lo <= pieces[i].start <= pieces[i].end <= hi)
    && (forall i, j :: 0 <= i < j < |pieces| ==> pieces[i].end <= pieces[j].start)
  }

  predicate Within(q: nat, piece: Piece) {
    piece.start <= q < piece.end
  }

  lemma {:induction false} PiecesApart(text: Text, cursor: nat)
    requires cursor <= |text|
    ensures Apart(Pieces(text, cursor), cursor, |text|)
    decreases |text| - cursor
  {
    hide IsBreak, IsSpace;
    var b := NextBreak(text, cursor);
    if b < |text| {
      PiecesApart(text, Past(text, b + 1));
    }
  }

  /** No piece runs across a break. */
  lemma {:induction false} PiecesHoldNoBreak(text: Text, cursor: nat, i: nat, q: nat)
    requires cursor <= |text| && i < |Pieces(text, cursor)| && Within(q, Pieces(text, cursor)[i])
    ensures q < |text| && !IsBreak(text, q)
    decreases |text| - cursor
  {
    hide IsBreak, IsSpace;
    var b := NextBreak(text, cursor);
    if b < |text| && i > 0 {
      PiecesHoldNoBreak(text, Past(text, b + 1), i - 1, q);
    }
  }

  /** Splitting drops nothing but the breaks' full stops and white space. */
  lemma {:induction false} PiecesKeepTheRest(text: Text, cursor: nat, q: nat) returns (i: nat)
    requires cursor <= q < |text| && !IsSpace(text[q]) && !IsBreak(text, q)
    ensures i < |Pieces(text, cursor)| && Within(q, Pieces(text, cursor)[i])
    decreases |text| - cursor
  {
    hide IsBreak, IsSpace;
    var b := NextBreak(text, cursor);
    if q < b {
      i := 0;
    } else {
      i := PiecesKeepTheRest(text, Past(text, b + 1), q);
      i := i + 1;
    }
  }

  // ----- Trimming -----

  /** A piece without the white space at its ends. */
  function Trimmed(text: Text, p: Piece): (t: Piece)
    requires p.start <= p.end <= |text|
    ensures p.start <= t.start <= t.end <= p.end
    ensures t.start < t.end ==> !IsSpace(text[t.start]) && !IsSpace(text[t.end - 1])
    ensures forall q: nat :: Within(q, p) && !IsSpace(text[q]) ==> Within(q, t)
    decreases p.end - p.start
  {
    if p.start < p.end && IsSpace(text[p.start]) then Trimmed(text, Piece(p.start + 1, p.end))
    else if p.start < p.end && IsSpace(text[p.end - 1]) then Trimmed(text, Piece(p.start, p.end - 1))
    else p
  }

  /** The pieces with something in them, trimmed. */
  function Ranges(text: Text, pieces: seq<Piece>): seq<Piece>
    requires Apart(pieces, 0, |text|)
  {
    if pieces == [] then []
    else
      var n := |pieces| - 1;
      var t := Trimmed(text, pieces[n]);
      Ranges(text, pieces[..n]) + if t.end <= t.start then [] else [t]
  }

  lemma {:induction false} RangesCome(text: Text, pieces: seq<Piece>, k: nat) returns (i: nat)
    requires Apart(pieces, 0, |text|) && k < |Ranges(text, pieces)|
    ensures i < |pieces| && Ranges(text, pieces)[k] == Trimmed(text, pieces[i])
    ensures Ranges(text, pieces)[k].start < Ranges(text, pieces)[k].end
  {
    var front := pieces[..|pieces| - 1];
    if k < |Ranges(text, front)| {
      i := RangesCome(text, front, k);
    } else {
      i := |pieces| - 1;
    }
  }

  lemma {:induction false} RangesHold(text: Text, pieces: seq<Piece>, i: nat, q: nat) returns (k: nat)
    requires Apart(pieces, 0, |text|) && i < |pieces| && Within(q, pieces[i]) && !IsSpace(text[q])
    ensures k < |Ranges(text, pieces)| && Within(q, Ranges(text, pieces)[k])
  {
    var n := |pieces| - 1;
    if i < n {
      k := RangesHold(text, pieces[..n], i, q);
    } else {
      k := |Ranges(text, pieces[..n])|;
    }
  }

  function LastEnd(pieces: seq<Piece>): nat {
    if pieces == [] then 0 else pieces[|pieces| - 1].end
  }

  lemma ApartNext(pieces: seq<Piece>, mid: nat, t: Piece)
    requires Apart(pieces, 0, mid) && mid <= t.start <= t.end
    ensures Apart(pieces + [t], 0, t.end) && Apart(pieces, 0, t.end)
  {
  }

  lemma {:induction false} RangesApart(text: Text, pieces: seq<Piece>)
    requires Apart(pieces, 0, |text|)
    ensures LastEnd(pieces) <= |text| && Apart(Ranges(text, pieces), 0, LastEnd(pieces))
  {
    hide Trimmed, IsSpace, Within;
    if pieces != [] {
      var n := |pieces| - 1;
      RangesApart(text, pieces[..n]);
      assert LastEnd(pieces[..n]) <= pieces[n].start;
      var t := Trimmed(text, pieces[n]);
      hide Apart;
      ApartNext(Ranges(text, pieces[..n]), LastEnd(pieces[..n]), t);
      assert Apart(Ranges(text, pieces), 0, t.end);
      ApartWidens(Ranges(text, pieces), t.end, pieces[n].end);
    }
  }

  lemma ApartWidens(pieces: seq<Piece>, hi: nat, wider: nat)
    requires Apart(pieces, 0, hi) && hi <= wider
    ensures Apart(pieces, 0, wider)
  {
  }

  method TrimPiece(text: Text, p: Piece) returns (start: nat, end: nat)
    requires p.start <= p.end <= |text|
    ensures Piece(start, end) == Trimmed(text, p)
  {
    hide IsSpace, Within;
    start, end := p.start, p.end;
    while start < end && IsSpace(text[start])
      invariant p.start <= start <= end
      invariant Trimmed(text, Piece(start, end)) == Trimmed(text, p)
    {
      start := start + 1;
    }
    while end > start && IsSpace(text[end - 1])
      invariant start <= end <= p.end
      invariant start < end ==> !IsSpace(text[start])
      invariant Trimmed(text, Piece(start, end)) == Trimmed(text, p)
    {
      end := end - 1;
    }
  }

  // ----- Sentences -----

  datatype Sentence = Sentence(text: Text, source: seq<nat>)

  function SentenceAt(page: Text, p: Piece): Sentence
    requires p.start <= p.end <= |Collapsed(page)|
  {
    Sentence(Collapsed(page)[p.start..p.end], Sources(page)[p.start..p.end])
  }

  /** Where the sentences of a page stand in its collapsed text. */
  function SentenceRangesOf(page: Text): (ranges: seq<Piece>)
    ensures Apart(ranges, 0, |Collapsed(page)|)
  {
    var text := Collapsed(page);
    PiecesApart(text, 0);
    RangesApart(text, Pieces(text, 0));
    ApartWidens(Ranges(text, Pieces(text, 0)), LastEnd(Pieces(text, 0)), |text|);
    Ranges(text, Pieces(text, 0))
  }

  function LocatedSentences(page: Text): (s: seq<Sentence>)
    ensures |s| == |SentenceRangesOf(page)|
  {
    var ranges := SentenceRangesOf(page);
    seq(|ranges|, k requires 0 <= k < |ranges| => SentenceAt(page, ranges[k]))
  }

  method LocatedSentencesOf(page: Text) returns (out: seq<Sentence>)
    ensures out == LocatedSentences(page)
  {
    hide IsSpace, IsBreak, Within, Pieces, Trimmed, Collapsed, Sources;
    var collapsed, source := CollapseWhitespace(page);
    var pieces := SentenceRanges(collapsed);
    PiecesApart(collapsed, 0);
    out := [];
    ghost var ranges: seq<Piece> := [];
    for n := 0 to |pieces|
      invariant ranges == Ranges(collapsed, pieces[..n])
      invariant forall k :: 0 <= k < |ranges| ==> ranges[k].start <= ranges[k].end <= |collapsed|
      invariant |out| == |ranges|
      invariant forall k :: 0 <= k < |out| ==> out[k] == SentenceAt(page, ranges[k])
    {
      assert pieces[..n + 1][..n] == pieces[..n];
      var start, end := TrimPiece(collapsed, pieces[n]);
      if end <= start {
        continue;
      }
      ranges := ranges + [Piece(start, end)];
      out := out + [Sentence(collapsed[start..end], source[start..end])];
    }
    assert pieces[..|pieces|] == pieces;
  }
}
