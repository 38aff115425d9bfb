/**
 * What a rate is per: the unit read after an amount, "per cubic metre", "per patient per day".
 *
 * The words after the opening "per" are taken one at a time. A small grammar says which of them
 * make a unit, and the texts that are read as a unit of it are characterised exactly.
 */
module Denominators {
  import opened Blanks
  import opened Wrappers

  // ----- Words -----

  predicate EndsTheUnit(plain: string) {
    plain in {
      "as", "through", "for", "on", "of", "was", "is", "were", "are", "and", "to", "in", "at", "by",
      "with", "from", "the", "a", "an", "which", "that", "compared", "up", "will", "shall", "would",
      "may", "can", "than", "but", "or", "if", "when", "during", "under", "over", "into", "onto", "per"
    }
  }

  predicate ContinuesAUnit(plain: string) {
    plain in {
      "metre", "meter", "metres", "meters", "m", "km", "kg", "mt", "tonne", "tonnes", "litre", "liter",
      "litres", "liters", "day", "days", "month", "months", "year", "years", "hour", "hours",
      "patient", "patients", "cum", "sqm", "unit", "units", "connection", "connections",
      "beneficiary", "beneficiaries", "child", "children"
    }
  }

  const MOST_UNIT_WORDS: nat := 4
  const MOST_WORD_LETTERS: nat := 16

  predicate IsCapital(c: char) { 'A' <= c <= 'Z' }
  predicate IsSmall(c: char) { 'a' <= c <= 'z' }
  predicate IsLetter(c: char) { IsCapital(c) || IsSmall(c) }

  function WithoutStops(s: string): string {
    if s != "" && s[|s| - 1] == '.' then WithoutStops(s[..|s| - 1]) else s
  }

  /** A word as the stop list knows it. */
  function Plain(word: string): string {
    WithoutStops(Lower(word))
  }

  // ----- Taking one word -----

  predicate IsWordChar(c: char) { IsLetter(c) || c == '.' }

  predicate IsDelimiter(c: char) { IsBlank(c) || c == ',' || c == ';' || c == ')' }

  /** How many word characters a text starts with. */
  function WordRun(s: string): (n: nat)
    ensures n <= |s|
    ensures forall i :: 0 <= i < n ==> IsWordChar(s[i])
    ensures n < |s| ==> !IsWordChar(s[n])
  {
    if s == "" || !IsWordChar(s[0]) then 0
    else
      var n := WordRun(s[1..]);
      assert forall i :: 0 < i < 1 + n ==> s[i] == s[1..][i - 1];
      1 + n
  }

  /** The first index at or after `i` that is not white space. */
  function PastBlanks(s: string, i: nat): (n: nat)
    requires i <= |s|
    ensures i <= n <= |s|
    ensures forall k :: i <= k < n ==> IsBlank(s[k])
    ensures n < |s| ==> !IsBlank(s[n])
    decreases |s| - i
  {
    if i < |s| && IsBlank(s[i]) then PastBlanks(s, i + 1) else i
  }

  datatype Token = Token(word: string, rest: string)

  /** A sentence's own full stop is dropped; an abbreviation keeps the stops it is printed with. */
  function Worded(captured: string): string {
    var trimmed := if captured != "" && captured[|captured| - 1] == '.' then captured[..|captured| - 1] else captured;
    if '.' in trimmed then captured else trimmed
  }

  /** The word a text starts with, and the rest past one delimiter and any white space. */
  function NextWord(s: string): (t: Option<Token>)
    ensures t.Some? ==> |t.value.rest| < |s|
  {
    var n := WordRun(s);
    if n == 0 || n > MOST_WORD_LETTERS || !IsLetter(s[0]) || (n < |s| && !IsDelimiter(s[n])) then None
    else
      var gap := if n < |s| then n + 1 else n;
      Some(Token(Worded(s[..n]), s[PastBlanks(s, gap)..]))
  }

  /** Stops and nothing else. */
  predicate AreStops(s: string) {
    forall k :: 0 <= k < |s| ==> s[k] == '.'
  }

  /**
   * How a run is worded: without a stop as it is; with one stop, at its end, without it; and with
   * a stop anywhere before its last character as it is, its final stop included.
   */
  lemma WordedIs(run: string)
    ensures '.' !in run ==> Worded(run) == run
    ensures '.' !in run ==> Worded(run + ".") == run
    ensures run != "" && '.' in run[..|run| - 1] ==> Worded(run) == run
  {
    assert (run + ".")[..|run|] == run;
    if run != "" && '.' in run[..|run| - 1] {
      var k :| 0 <= k < |run| - 1 && run[..|run| - 1][k] == '.';
      assert run[k] == '.';
    }
  }

  /** How a word is looked up: in lower case, the stops at its end left out. */
  lemma {:induction false} PlainIs(stem: string, stops: string)
    requires AreStops(stops) && (stem == "" || stem[|stem| - 1] != '.')
    ensures Plain(stem + stops) == Lower(stem)
  {
    assert Lower(stem + stops) == Lower(stem) + stops;
    StopsGo(Lower(stem), stops);
  }

  lemma {:induction false} StopsGo(s: string, stops: string)
    requires AreStops(stops) && (s == "" || s[|s| - 1] != '.')
    ensures WithoutStops(s + stops) == s
  {
    if stops == "" {
      assert s + stops == s;
    } else {
      var n := |stops| - 1;
      assert (s + stops)[..|s| + n] == s + stops[..n];
      StopsGo(s, stops[..n]);
    }
  }

  // ----- Scanning -----

  /** A capitalised word after a lower-case one opens something else. */
  predicate OpensSomethingElse(word: string, previous: string) {
    |word| >= 2 && IsCapital(word[0]) && IsSmall(word[1]) && previous != "" && IsSmall(previous[0])
  }

  datatype Step = Stop | FollowPer | Take

  function StepFor(word: string, words: seq<string>, followed: bool): Step {
    var plain := Plain(word);
    if EndsTheUnit(plain) then
      if plain == "per" && !followed && words != [] then FollowPer else Stop
    else if words != [] && OpensSomethingElse(word, words[|words| - 1]) then Stop
    else if words != [] && !followed && !ContinuesAUnit(plain) then Stop
    else Take
  }

  predicate HasTakenEnough(words: seq<string>, rest: string, followed: bool) {
    || |words| >= MOST_UNIT_WORDS
    || (followed && |words| >= 2 && Lower(words[|words| - 2]) == "per")
    || (rest != "" && rest[0] in {',', ';', '.', ')'})
  }

  datatype Capture = Capture(words: seq<string>, rest: string)

  /** Takes words one at a time until one does not belong or there are enough. */
  function Scan(words: seq<string>, rest: string, followed: bool): Capture
    decreases |rest|
  {
    var token := NextWord(rest);
    if token.None? then Capture(words, rest)
    else
      var step := StepFor(token.value.word, words, followed);
      if step.Stop? then Capture(words, rest)
      else
        var taken := words + [if step.FollowPer? then "per" else token.value.word];
        var nowFollowed := followed || step.FollowPer?;
        if HasTakenEnough(taken, token.value.rest, nowFollowed) then Capture(taken, token.value.rest)
        else Scan(taken, token.value.rest, nowFollowed)
  }

  function WithoutPer(words: seq<string>): seq<string> {
    if words != [] && Lower(words[|words| - 1]) == "per" then WithoutPer(words[..|words| - 1]) else words
  }

  function Spaced(words: seq<string>): string {
    if words == [] then "" else if |words| == 1 then words[0] else words[0] + " " + Spaced(words[1..])
  }

  predicate CarriesADigit(s: string) {
    exists i :: 0 <= i < |s| && '0' <= s[i] <= '9'
  }

  predicate EndsHere(rest: string) {
    Trim(rest) == "" || (var n := PastBlanks(rest, 0); n < |rest| && rest[n] == '…')
  }

  function Finish(words: seq<string>, rest: string): Option<string> {
    var kept := WithoutPer(words);
    if kept == [] || EndsHere(rest) || CarriesADigit(Spaced(kept)) then None else Some(Spaced(kept))
  }

  /** The unit stated after the opening "per", or none where it cannot be read whole. */
  function UnitAfter(text: string): Option<string> {
    var c := Scan([], text, false);
    Finish(c.words, c.rest)
  }

  /** `money` and `afterPer` are what the two opening patterns make of the text. */
  method DenominatorAfter(money: Option<string>, afterPer: Option<string>) returns (unit: Option<string>)
    ensures unit == if money.Some? then money else if afterPer.None? then None else UnitAfter(afterPer.value)
  {
    hide NextWord, StepFor, HasTakenEnough, Finish;
    if money.Some? {
      return money;
    }
    if afterPer.None? {
      return None;
    }
    var words: seq<string> := [];
    var rest := afterPer.value;
    var followedASecondPer := false;
    while true
      invariant Scan(words, rest, followedASecondPer) == Scan([], afterPer.value, false)
      decreases |rest|
    {
      var token := NextWord(rest);
      if token.None? {
        break;
      }
      var step := StepFor(token.value.word, words, followedASecondPer);
      if step == Stop {
        break;
      }
      ghost var wasFollowed := followedASecondPer;
      if step == FollowPer {
        followedASecondPer := true;
      }
      words := words + [if step == FollowPer then "per" else token.value.word];
      rest := token.value.rest;
      if HasTakenEnough(words, rest, followedASecondPer) {
        return Finish(words, rest);
      }
    }
    return Finish(words, rest);
  }

  // ----- The grammar of a unit -----

  /** A first word that ends nothing, then measure nouns, none opening something else. */
  predicate IsHead(words: seq<string>) {
    && words != [] && !EndsTheUnit(Plain(words[0]))
    && (forall i :: 0 < i < |words| ==> ContinuesAUnit(Plain(words[i])) && !EndsTheUnit(Plain(words[i])))
    && (forall i :: 0 < i < |words| ==> !OpensSomethingElse(words[i], words[i - 1]))
  }

  /** A head, or a head and one "per" with exactly one word after it; four words at most. */
  predicate IsUnit(words: seq<string>) {
    && |words| <= MOST_UNIT_WORDS
    && (IsHead(words) || (|words| >= 3 && IsRate(words)))
  }

  predicate IsRate(words: seq<string>)
    requires |words| >= 2
  {
    var n := |words|;
    && words[n - 2] == "per" && IsHead(words[..n - 2])
    && !EndsTheUnit(Plain(words[n - 1])) && !OpensSomethingElse(words[n - 1], "per")
  }

  /** What the scan holds at any time: a unit, nothing, or a head with its "per" just read. */
  predicate IsCapture(words: seq<string>, followed: bool) {
    && |words| <= MOST_UNIT_WORDS
    && if !followed then words == [] || IsHead(words)
       else |words| >= 2 && (EndsInPer(words) || (|words| >= 3 && IsRate(words)))
  }

  predicate EndsInPer(words: seq<string>) {
    words != [] && words[|words| - 1] == "per" && IsHead(words[..|words| - 1])
  }

  lemma PerEndsTheUnit()
    ensures Plain("per") == "per" && Lower("per") == "per" && EndsTheUnit("per")
  {
  }

  lemma {:induction false} PlainPer(word: string)
    ensures Lower(word) == "per" ==> EndsTheUnit(Plain(word))
  {
    PerEndsTheUnit();
  }

  /** Taking a word keeps the shape. */
  lemma {:induction false} StepKeepsTheShape(word: string, words: seq<string>, followed: bool)
    requires IsCapture(words, followed) && |words| < MOST_UNIT_WORDS
    requires followed ==> EndsInPer(words)
    ensures StepFor(word, words, followed) == Take ==> IsCapture(words + [word], followed)
    ensures StepFor(word, words, followed) == FollowPer ==>
      !followed && IsCapture(words + ["per"], true) && EndsInPer(words + ["per"])
  {
    hide EndsTheUnit, ContinuesAUnit, OpensSomethingElse, Plain;
    assert (words + [word])[..|words|] == words;
    assert (words + ["per"])[..|words|] == words;
    if followed {
      assert (words + [word])[..|words| - 1] == words[..|words| - 1];
    }
  }

  /** A capture with its second part read stops the scan, so "per" takes exactly one word. */
  lemma {:induction false} RateIsEnough(words: seq<string>, rest: string)
    requires IsCapture(words, true) && !HasTakenEnough(words, rest, true)
    ensures EndsInPer(words)
  {
    PerEndsTheUnit();
    hide EndsTheUnit, ContinuesAUnit, OpensSomethingElse, Plain, IsHead, Lower;
  }

  lemma {:induction false} ScanKeepsTheShape(words: seq<string>, rest: string, followed: bool) returns (f: bool)
    requires IsCapture(words, followed) && |words| < MOST_UNIT_WORDS && (followed ==> EndsInPer(words))
    ensures IsCapture(Scan(words, rest, followed).words, f)
    decreases |rest|
  {
    hide NextWord, StepFor, IsCapture, EndsInPer;
    var token := NextWord(rest);
    f := followed;
    if token.Some? && StepFor(token.value.word, words, followed) != Stop {
      var step := StepFor(token.value.word, words, followed);
      StepKeepsTheShape(token.value.word, words, followed);
      var taken := words + [if step.FollowPer? then "per" else token.value.word];
      f := followed || step.FollowPer?;
      if !HasTakenEnough(taken, token.value.rest, f) {
        if f {
          RateIsEnough(taken, token.value.rest);
        }
        f := ScanKeepsTheShape(taken, token.value.rest, f);
      }
    }
  }

  /** With the trailing "per" gone, what is left of a capture is a unit. */
  lemma {:induction false} KeptIsAUnit(words: seq<string>, followed: bool)
    requires IsCapture(words, followed)
    ensures WithoutPer(words) == [] || IsUnit(WithoutPer(words))
  {
    PerEndsTheUnit();
    if words != [] {
      var n := |words|;
      PlainPer(words[n - 1]);
      if n >= 2 {
        PlainPer(words[n - 2]);
      }
      hide EndsTheUnit, ContinuesAUnit, OpensSomethingElse, Plain, Lower;
    }
  }

  // ----- The words are the page's -----

  /** The next word is a run of the text's own letters and stops, passed over with its gap. */
  lemma {:induction false} WordIsTheTexts(s: string) returns (captured: string, gap: string)
    requires NextWord(s).Some?
    ensures s == captured + gap + NextWord(s).value.rest
    ensures captured != "" && forall i :: 0 <= i < |captured| ==> IsWordChar(captured[i])
    ensures forall i :: 0 <= i < |gap| ==> IsDelimiter(gap[i])
    ensures NextWord(s).value.word == Worded(captured) && Worded(captured) <= captured
  {
    hide IsBlank, IsWordChar;
    var n := WordRun(s);
    var past := PastBlanks(s, if n < |s| then n + 1 else n);
    captured, gap := s[..n], s[n..past];
    hide WordRun, PastBlanks;
    assert s == captured + gap + s[past..];
  }

  /** `words` are, one by one, the words of a stretch that starts `text` and ends at `rest`. */
  predicate AreRead(text: string, words: seq<string>, rest: string)
    decreases words
  {
    if words == [] then text == rest
    else
      var t := NextWord(text);
      && t.Some?
      && (words[0] == t.value.word || (words[0] == "per" && Plain(t.value.word) == "per"))
      && AreRead(t.value.rest, words[1..], rest)
  }

  lemma {:induction false} ReadOneMore(text: string, words: seq<string>, rest: string, word: string)
    requires AreRead(text, words, rest) && NextWord(rest).Some?
    requires word == NextWord(rest).value.word || (word == "per" && Plain(NextWord(rest).value.word) == "per")
    ensures AreRead(text, words + [word], NextWord(rest).value.rest)
    decreases words
  {
    hide NextWord, Plain;
    if words == [] {
      assert ([] + [word])[1..] == [];
    } else {
      ReadOneMore(NextWord(text).value.rest, words[1..], rest, word);
      assert (words + [word])[1..] == words[1..] + [word];
    }
  }

  lemma {:induction false} ScanReads(text: string, words: seq<string>, rest: string, followed: bool)
    requires AreRead(text, words, rest)
    ensures var c := Scan(words, rest, followed); AreRead(text, c.words, c.rest)
    decreases |rest|
  {
    hide NextWord, Plain, HasTakenEnough, AreRead, EndsTheUnit, ContinuesAUnit;
    var token := NextWord(rest);
    if token.Some? && StepFor(token.value.word, words, followed) != Stop {
      var step := StepFor(token.value.word, words, followed);
      var word := if step.FollowPer? then "per" else token.value.word;
      ReadOneMore(text, words, rest, word);
      if !HasTakenEnough(words + [word], token.value.rest, followed || step.FollowPer?) {
        ScanReads(text, words + [word], token.value.rest, followed || step.FollowPer?);
      }
    }
  }

  /** Words hold letters and stops only, so the last guard, against digits, never fires. */
  predicate AllWordChars(words: seq<string>) {
    forall i, k :: 0 <= i < |words| && 0 <= k < |words[i]| ==> IsWordChar(words[i][k])
  }

  lemma {:induction false} WordHasWordChars(text: string)
    requires NextWord(text).Some?
    ensures var w := NextWord(text).value.word; forall k :: 0 <= k < |w| ==> IsWordChar(w[k])
  {
    hide IsWordChar;
    var w := NextWord(text).value.word;
    var captured, _ := WordIsTheTexts(text);
    hide NextWord, Worded;
    assert forall k :: 0 <= k < |w| ==> w[k] == captured[k];
  }

  lemma PerHasWordChars()
    ensures forall k :: 0 <= k < 3 ==> IsWordChar("per"[k])
  {
  }

  lemma {:induction false} ReadWordsHaveNoDigit(text: string, words: seq<string>, rest: string)
    requires AreRead(text, words, rest)
    ensures AllWordChars(words)
    decreases words
  {
    hide IsWordChar, NextWord, Plain;
    if words != [] {
      WordHasWordChars(text);
      PerHasWordChars();
      ReadWordsHaveNoDigit(NextWord(text).value.rest, words[1..], rest);
      hide AreRead;
      forall i, k | 0 <= i < |words| && 0 <= k < |words[i]| ensures IsWordChar(words[i][k]) {
        if i > 0 {
          assert words[i] == words[1..][i - 1];
        }
      }
    }
  }

  lemma {:induction false} SpacedHasNoDigit(words: seq<string>)
    requires AllWordChars(words)
    ensures !CarriesADigit(Spaced(words))
  {
    if |words| > 1 {
      SpacedHasNoDigit(words[1..]);
      var s := Spaced(words[1..]);
      assert Spaced(words) == words[0] + " " + s;
      forall i | 0 <= i < |Spaced(words)| ensures !('0' <= Spaced(words)[i] <= '9') {
        if i > |words[0]| {
          assert Spaced(words)[i] == s[i - |words[0]| - 1];
        } else if i < |words[0]| {
          assert Spaced(words)[i] == words[0][i];
        }
      }
    }
  }

  // ----- What is read -----

  lemma {:induction false} WithoutPerIsAPrefix(words: seq<string>)
    ensures WithoutPer(words) <= words
  {
    hide Lower;
    if words != [] {
      WithoutPerIsAPrefix(words[..|words| - 1]);
    }
  }

  /**
   * A unit that is read is one of the grammar, at most four words long; its words stand one
   * after another at the head of the text; and the text goes on after them.
   */
  lemma {:induction false} UnitIsBounded(text: string) returns (kept: seq<string>, words: seq<string>, rest: string)
    requires UnitAfter(text).Some?
    ensures IsUnit(kept) && UnitAfter(text) == Some(Spaced(kept))
    ensures AreRead(text, words, rest) && kept <= words && |words| <= |kept| + 1
    ensures !EndsHere(rest) && !CarriesADigit(Spaced(kept))
  {
    var f := ScanKeepsTheShape([], text, false);
    var c := Scan([], text, false);
    words, rest := c.words, c.rest;
    kept := WithoutPer(words);
    ScanReads(text, [], text, false);
    hide Scan, IsUnit, AreRead, EndsHere, Spaced, CarriesADigit, NextWord;
    KeptIsAUnit(words, f);
    WithoutPerIsAPrefix(words);
    OnePerAtMost(words, f);
  }

  lemma {:induction false} OnePerAtMost(words: seq<string>, followed: bool)
    requires IsCapture(words, followed)
    ensures |words| <= |WithoutPer(words)| + 1
  {
    if words != [] {
      PlainPer(words[|words| - 1]);
      if |words| >= 2 {
        PlainPer(words[|words| - 2]);
      }
      hide EndsTheUnit, ContinuesAUnit, OpensSomethingElse, Plain, Lower;
    }
  }

  /** The guard against a digit in the unit is never what refuses one. */
  lemma {:induction false} DigitGuardNeverFires(text: string)
    ensures UnitAfter(text).None? <==>
      var c := Scan([], text, false); WithoutPer(c.words) == [] || EndsHere(c.rest)
  {
    var c := Scan([], text, false);
    ScanReads(text, [], text, false);
    ReadWordsHaveNoDigit(text, c.words, c.rest);
    WithoutPerIsAPrefix(c.words);
    hide Scan, AreRead, EndsHere, Spaced, CarriesADigit, NextWord, IsWordChar, WithoutPer;
    var kept := WithoutPer(c.words);
    assert AllWordChars(kept) by {
      assert forall i :: 0 <= i < |kept| ==> kept[i] == c.words[i];
    }
    SpacedHasNoDigit(kept);
  }

  // ----- Every unit of the grammar is read -----

  lemma WordStartsWithALetter(s: string)
    requires NextWord(s).Some?
    ensures s != "" && s[0] !in {',', ';', '.', ')'}
  {
  }

  predicate IsRated(words: seq<string>) {
    |words| >= 3 && IsRate(words)
  }

  /** Each word of a unit is taken in its turn, its "per" followed. */
  lemma {:induction false} StepAlong(words: seq<string>, i: nat, word: string)
    requires IsUnit(words) && i < |words|
    requires words[i] == word || (words[i] == "per" && Plain(word) == "per")
    ensures StepFor(word, words[..i], IsRated(words) && i == |words| - 1) ==
      if IsRated(words) && i == |words| - 2 then FollowPer else Take
    ensures words[i] == if IsRated(words) && i == |words| - 2 then "per" else word
  {
    PerEndsTheUnit();
    hide EndsTheUnit, ContinuesAUnit, OpensSomethingElse, Plain;
    if IsRated(words) {
      var head := words[..|words| - 2];
      assert forall k :: 0 <= k < |head| ==> head[k] == words[k];
    }
  }

  /** Nothing is enough before the unit is whole. */
  lemma {:induction false} NotEnoughYet(words: seq<string>, i: nat, rest: string)
    requires IsUnit(words) && i + 1 < |words|
    requires rest != "" && rest[0] !in {',', ';', '.', ')'}
    ensures !HasTakenEnough(words[..i + 1], rest, IsRated(words) && i + 1 >= |words| - 1)
  {
    var taken := words[..i + 1];
    if IsRated(words) && i + 1 == |words| - 1 {
      var head := words[..|words| - 2];
      assert taken[|taken| - 2] == head[|head| - 1];
      PlainPer(taken[|taken| - 2]);
    }
    hide EndsTheUnit, ContinuesAUnit, OpensSomethingElse, Plain;
  }

  /** Where the scan is, the words of a unit taken and the tail still to read. */
  function ScanOn(words: seq<string>, tail: string, followed: bool): Capture {
    if HasTakenEnough(words, tail, followed) then Capture(words, tail) else Scan(words, tail, followed)
  }

  lemma {:induction false} ScanTakesTheUnit(words: seq<string>, i: nat, text: string, tail: string)
    requires IsUnit(words) && i < |words| && AreRead(text, words[i..], tail)
    ensures Scan(words[..i], text, IsRated(words) && i >= |words| - 1) == ScanOn(words, tail, IsRated(words))
    decreases |words| - i
  {
    hide IsUnit, StepFor, HasTakenEnough, NextWord, IsRated, Plain;
    var todo := words[i..];
    assert todo[0] == words[i] && todo[1..] == words[i + 1..];
    var t := NextWord(text).value;
    StepAlong(words, i, t.word);
    assert words[..i] + [words[i]] == words[..i + 1];
    if i + 1 < |words| {
      assert AreRead(t.rest, words[i + 1..], tail) && words[i + 1..] != [];
      WordStartsWithALetter(t.rest);
      NotEnoughYet(words, i, t.rest);
      ScanTakesTheUnit(words, i + 1, t.rest, tail);
    } else {
      assert words[..i + 1] == words && words[i + 1..] == [];
    }
  }

  /** Nothing more is taken: there is enough, or no next word, or the next word does not belong. */
  predicate StopsAt(words: seq<string>, rest: string, followed: bool) {
    || HasTakenEnough(words, rest, followed)
    || NextWord(rest).None?
    || StepFor(NextWord(rest).value.word, words, followed).Stop?
  }

  /**
   * The unit ends where these words do and the text goes on: either nothing after them is taken,
   * or just one "per" is, with nothing to follow it.
   */
  predicate UnitEnds(words: seq<string>, tail: string) {
    if StopsAt(words, tail, IsRated(words)) then !EndsHere(tail)
    else
      var t := NextWord(tail).value;
      && StepFor(t.word, words, IsRated(words)).FollowPer?
      && StopsAt(words + ["per"], t.rest, true)
      && !EndsHere(t.rest)
  }

  /** The scan only adds words. */
  lemma {:induction false} ScanExtends(words: seq<string>, rest: string, followed: bool)
    ensures words <= Scan(words, rest, followed).words
    decreases |rest|
  {
    hide NextWord, StepFor, HasTakenEnough;
    var token := NextWord(rest);
    if token.Some? && StepFor(token.value.word, words, followed) != Stop {
      var step := StepFor(token.value.word, words, followed);
      var taken := words + [if step.FollowPer? then "per" else token.value.word];
      ScanExtends(taken, token.value.rest, followed || step.FollowPer?);
    }
  }

  lemma {:induction false} SpacedGrows(words: seq<string>, more: seq<string>)
    requires words != [] && words < more
    ensures |Spaced(words)| < |Spaced(more)|
  {
    if |words| > 1 {
      SpacedGrows(words[1..], more[1..]);
    }
  }

  /** A word taken is not "per", so it is kept, and so is all before it. */
  lemma {:induction false} TakenIsKept(words: seq<string>, taken: string, all: seq<string>)
    requires words + [taken] <= all && !EndsTheUnit(Plain(taken))
    ensures words + [taken] <= WithoutPer(all)
    decreases all
  {
    PlainPer(taken);
    hide EndsTheUnit, Plain, Lower;
    if |all| > |words| + 1 {
      TakenIsKept(words, taken, all[..|all| - 1]);
    }
  }

  /** Taking one word more makes the unit another. */
  lemma {:induction false} TakingMoreIsAnother(words: seq<string>, word: string, c: Capture, unit: seq<string>)
    requires unit != [] && unit <= words && words + [word] <= c.words && !EndsTheUnit(Plain(word))
    ensures Finish(c.words, c.rest) != Some(Spaced(unit))
  {
    TakenIsKept(words, word, c.words);
    hide EndsTheUnit, Plain, EndsHere, CarriesADigit, WithoutPer;
    SpacedGrows(unit, WithoutPer(c.words));
  }

  /** With "per" taken after a unit, nothing is added to it if nothing follows, and something if it does. */
  lemma {:induction false} PerAddsOnlyWithAWord(words: seq<string>, rest: string)
    requires IsUnit(words) && !CarriesADigit(Spaced(words))
    ensures var c := ScanOn(words + ["per"], rest, true);
      Finish(c.words, c.rest) == Some(Spaced(words)) <==> StopsAt(words + ["per"], rest, true) && !EndsHere(rest)
  {
    LastIsNotPer(words);
    PerEndsTheUnit();
    assert (words + ["per"])[..|words|] == words;
    assert WithoutPer(words + ["per"]) == words;
    hide IsUnit, NextWord, HasTakenEnough, WithoutPer, Spaced, CarriesADigit, EndsHere, Lower;
    if !StopsAt(words + ["per"], rest, true) {
      var t := NextWord(rest).value;
      StepAfterPer(words, t.word);
      var taken := words + ["per"] + [t.word];
      ScanExtends(taken, t.rest, true);
      TakingMoreIsAnother(words + ["per"], t.word, ScanOn(words + ["per"], rest, true), words);
    }
  }

  lemma StepAfterPer(words: seq<string>, word: string)
    ensures var step := StepFor(word, words + ["per"], true);
      step != FollowPer && (step == Take ==> !EndsTheUnit(Plain(word)))
  {
    hide EndsTheUnit, Plain;
  }

  lemma StepIsTaken(words: seq<string>, tail: string)
    requires IsUnit(words)
    ensures var token, rated := NextWord(tail), IsRated(words);
      token.Some? && StepFor(token.value.word, words, rated) == Take ==> !EndsTheUnit(Plain(token.value.word))
  {
    hide NextWord, EndsTheUnit, Plain;
  }

  lemma {:induction false} LastIsNotPer(words: seq<string>)
    requires IsUnit(words)
    ensures words != [] && WithoutPer(words) == words
  {
    PlainPer(words[|words| - 1]);
    hide EndsTheUnit, ContinuesAUnit, OpensSomethingElse, Plain, Lower;
  }

  /**
   * Wherever the words of a unit stand at the head of a text, however they are spaced and
   * punctuated, they are read as the unit exactly when that is where the unit ends: at the
   * limit, a mark, no word, a word that does not belong, or a "per" with nothing to follow it.
   */
  lemma {:induction false} UnitIsReadExactly(text: string, words: seq<string>, tail: string)
    requires IsUnit(words) && AreRead(text, words, tail)
    ensures UnitAfter(text) == Some(Spaced(words)) <==> UnitEnds(words, tail)
  {
    hide AreRead, NextWord, HasTakenEnough, StepFor, IsUnit, WithoutPer, Spaced, CarriesADigit, EndsHere;
    hide EndsTheUnit, Plain;
    LastIsNotPer(words);
    assert words[..0] == [] && words[0..] == words;
    ScanTakesTheUnit(words, 0, text, tail);
    ReadWordsHaveNoDigit(text, words, tail);
    SpacedHasNoDigit(words);
    StepIsTaken(words, tail);
    var rated := IsRated(words);
    assert |words| == 1 ==> !rated;
    hide IsRated, AllWordChars, Scan;
    assert UnitAfter(text) == var c := ScanOn(words, tail, rated); Finish(c.words, c.rest);
    if !StopsAt(words, tail, rated) {
      var t := NextWord(tail).value;
      if StepFor(t.word, words, rated).FollowPer? {
        PerAddsOnlyWithAWord(words, t.rest);
      } else {
        ScanExtends(words + [t.word], t.rest, rated);
        TakingMoreIsAnother(words, t.word, ScanOn(words, tail, rated), words);
      }
    }
  }

  lemma {:induction false} FewerAreRead(text: string, fewer: seq<string>, words: seq<string>, rest: string)
    returns (tail: string)
    requires fewer <= words && AreRead(text, words, rest)
    ensures AreRead(text, fewer, tail)
    decreases fewer
  {
    hide NextWord, Plain;
    if fewer == [] {
      tail := text;
    } else {
      tail := FewerAreRead(NextWord(text).value.rest, fewer[1..], words[1..], rest);
    }
  }

  /** The text starts with the words of this unit, and the unit ends after them. */
  ghost predicate States(text: string, unit: string, words: seq<string>, tail: string) {
    IsUnit(words) && AreRead(text, words, tail) && unit == Spaced(words) && UnitEnds(words, tail)
  }

  /** What any text at all is read as: the unit its first words state, and nothing otherwise. */
  lemma {:induction false} ReadsTheUnitStated(text: string, unit: string)
    ensures UnitAfter(text) == Some(unit) <==> exists words, tail :: States(text, unit, words, tail)
  {
    hide IsUnit, AreRead, UnitEnds, UnitAfter, Spaced, EndsHere;
    if UnitAfter(text) == Some(unit) {
      var kept, words, rest := UnitIsBounded(text);
      var tail := FewerAreRead(text, kept, words, rest);
      UnitIsReadExactly(text, kept, tail);
      assert States(text, unit, kept, tail);
    }
    forall words, tail | States(text, unit, words, tail) ensures UnitAfter(text) == Some(unit) {
      UnitIsReadExactly(text, words, tail);
    }
  }

  /** So a unit with the sentence resuming after it, "month was paid", is read as the unit. */
  lemma {:induction false} StopWordEndsTheUnit(text: string, words: seq<string>, tail: string)
    requires IsUnit(words) && AreRead(text, words, tail) && !EndsHere(tail)
    requires NextWord(tail).Some?
    requires var plain := Plain(NextWord(tail).value.word); EndsTheUnit(plain) && plain != "per"
    ensures UnitAfter(text) == Some(Spaced(words))
  {
    hide NextWord, EndsTheUnit, Plain, EndsHere, UnitAfter, AreRead, Spaced, IsUnit, IsRated, HasTakenEnough;
    UnitIsReadExactly(text, words, tail);
  }

  /**
   * A unit without "per" can run to four words, not two: measure nouns go on until the limit,
   * whatever the comment beside the limit says.
   */
  lemma {:induction false} MeasureNounsRunOn(text: string, words: seq<string>, tail: string)
    requires IsHead(words) && |words| == MOST_UNIT_WORDS
    requires AreRead(text, words, tail) && !EndsHere(tail)
    ensures "per" !in words && UnitAfter(text) == Some(Spaced(words))
  {
    PerEndsTheUnit();
    hide EndsTheUnit, ContinuesAUnit, OpensSomethingElse, Plain, AreRead, Spaced, UnitAfter, EndsHere, NextWord;
    UnitIsReadExactly(text, words, tail);
  }

  // ----- Words as they are printed -----

  /** A word as a page prints it: a letter, then letters and stops. */
  predicate IsRun(run: string) {
    0 < |run| <= MOST_WORD_LETTERS && IsLetter(run[0]) && forall i :: 0 <= i < |run| ==> IsWordChar(run[i])
  }

  /** What may stand after a word: white space or one mark, then white space. */
  ghost predicate IsGap(gap: string) {
    gap != "" && IsDelimiter(gap[0]) && AllBlank(gap[1..])
  }

  function Printed(runs: seq<string>, gaps: seq<string>, tail: string): string
    requires |gaps| == |runs|
  {
    if runs == [] then tail else runs[0] + gaps[0] + Printed(runs[1..], gaps[1..], tail)
  }

  function WordsOf(runs: seq<string>): (words: seq<string>)
    ensures |words| == |runs| && forall i :: 0 <= i < |runs| ==> words[i] == Worded(runs[i])
  {
    if runs == [] then [] else [Worded(runs[0])] + WordsOf(runs[1..])
  }

  ghost predicate IsPrint(runs: seq<string>, gaps: seq<string>, tail: string) {
    && (forall i :: 0 <= i < |runs| ==> IsRun(runs[i]))
    && (forall i :: 0 <= i < |gaps| ==> IsGap(gaps[i]))
    && (tail == "" || !IsBlank(tail[0]))
  }

  lemma {:induction false} WordRunIs(s: string, n: nat)
    requires n <= |s| && (forall i :: 0 <= i < n ==> IsWordChar(s[i])) && (n < |s| ==> !IsWordChar(s[n]))
    ensures WordRun(s) == n
  {
    if n > 0 {
      WordRunIs(s[1..], n - 1);
    }
  }

  lemma {:induction false} PastBlanksIs(s: string, i: nat, n: nat)
    requires i <= n <= |s| && (forall k :: i <= k < n ==> IsBlank(s[k])) && (n < |s| ==> !IsBlank(s[n]))
    ensures PastBlanks(s, i) == n
    decreases n - i
  {
    hide IsBlank;
    if i < n {
      PastBlanksIs(s, i + 1, n);
    }
  }

  lemma DelimiterEndsAWord(c: char)
    requires IsDelimiter(c)
    ensures !IsWordChar(c)
  {
    if IsBlank(c) {
      BlankIsNotLetter(c);
    }
  }

  lemma {:induction false} NextWordReads(run: string, gap: string, more: string)
    requires IsRun(run) && IsGap(gap) && (more == "" || !IsBlank(more[0]))
    ensures NextWord(run + gap + more) == Some(Token(Worded(run), more))
  {
    var s := run + gap + more;
    DelimiterEndsAWord(gap[0]);
    hide IsBlank, IsWordChar, IsDelimiter, Worded;
    assert forall i :: 0 <= i < |run| ==> s[i] == run[i];
    assert s[|run|] == gap[0];
    WordRunIs(s, |run|);
    assert s[..|run|] == run;
    forall k | |run| + 1 <= k < |run| + |gap| ensures IsBlank(s[k]) {
      assert s[k] == gap[1..][k - |run| - 1];
    }
    PastBlanksIs(s, |run| + 1, |run| + |gap|);
    assert s[|run| + |gap|..] == more;
  }

  lemma LetterIsNotBlank(c: char)
    requires IsLetter(c)
    ensures !IsBlank(c) && c !in {',', ';', '.', ')', '…'}
  {
  }

  lemma PrintedGoesOn(runs: seq<string>, gaps: seq<string>, tail: string)
    requires |gaps| == |runs| && IsPrint(runs, gaps, tail)
    ensures var s := Printed(runs, gaps, tail); s == "" || !IsBlank(s[0])
    ensures runs != [] ==> var s := Printed(runs, gaps, tail); s != "" && IsLetter(s[0])
  {
    hide IsBlank, IsGap, IsWordChar;
    if runs != [] {
      assert IsRun(runs[0]);
      LetterIsNotBlank(runs[0][0]);
      assert Printed(runs, gaps, tail)[0] == runs[0][0];
    }
  }

  lemma {:induction false} PrintedStep(runs: seq<string>, gaps: seq<string>, tail: string)
    requires |gaps| == |runs| && IsPrint(runs, gaps, tail) && runs != []
    ensures IsPrint(runs[1..], gaps[1..], tail)
    ensures NextWord(Printed(runs, gaps, tail)) == Some(Token(Worded(runs[0]), Printed(runs[1..], gaps[1..], tail)))
  {
    hide IsBlank, IsGap, IsRun, NextWord, Worded;
    assert IsRun(runs[0]) && IsGap(gaps[0]);
    PrintedGoesOn(runs[1..], gaps[1..], tail);
    NextWordReads(runs[0], gaps[0], Printed(runs[1..], gaps[1..], tail));
  }

  lemma {:induction false} PrintedIsRead(runs: seq<string>, gaps: seq<string>, tail: string)
    requires |gaps| == |runs| && IsPrint(runs, gaps, tail)
    ensures AreRead(Printed(runs, gaps, tail), WordsOf(runs), tail)
  {
    hide IsPrint, NextWord, Worded, Plain;
    if runs != [] {
      PrintedStep(runs, gaps, tail);
      PrintedIsRead(runs[1..], gaps[1..], tail);
    }
  }

  /** A unit of the grammar, printed with any gaps and any text after it. */
  lemma {:induction false} PrintedUnitIsRead(runs: seq<string>, gaps: seq<string>, tail: string)
    requires |gaps| == |runs| && IsPrint(runs, gaps, tail) && IsUnit(WordsOf(runs))
    ensures UnitAfter(Printed(runs, gaps, tail)) == Some(Spaced(WordsOf(runs))) <==> UnitEnds(WordsOf(runs), tail)
  {
    hide IsPrint, IsUnit, UnitAfter, Spaced, UnitEnds, AreRead;
    PrintedIsRead(runs, gaps, tail);
    UnitIsReadExactly(Printed(runs, gaps, tail), WordsOf(runs), tail);
  }

  /** White space, and then either nothing or the mark of a text cut short. */
  ghost predicate RunsOut(rest: string) {
    exists blanks, after :: rest == blanks + after && AllBlank(blanks) && (after == "" || after[0] == '…')
  }

  lemma {:induction false} BlankTrims(s: string)
    ensures Trim(s) == "" <==> AllBlank(s)
  {
    var a, b := TrimCuts(s);
    if AllBlank(s) {
      assert s + "" + "" == s;
      TrimIgnoresBlanks(s, "", "");
    }
  }

  /** The evidence ends where the unit does exactly when there is nothing more, or only the mark that it was cut. */
  lemma {:induction false} EndsHereExactly(rest: string)
    ensures EndsHere(rest) <==> RunsOut(rest)
  {
    BlankTrims(rest);
    var n := PastBlanks(rest, 0);
    hide Trim;
    if EndsHere(rest) {
      if AllBlank(rest) {
        assert rest == rest + "" && RunsOut(rest);
      } else {
        assert rest == rest[..n] + rest[n..];
      }
    }
    if blanks, after :| rest == blanks + after && AllBlank(blanks) && (after == "" || after[0] == '…') {
      if after == "" {
        assert rest == blanks;
      } else {
        assert !IsBlank('…');
        hide IsBlank;
        assert forall k :: 0 <= k < |blanks| ==> rest[k] == blanks[k];
        assert rest[|blanks|] == '…';
        PastBlanksIs(rest, 0, |blanks|);
      }
    }
  }

  /** Two places to stop that end alike: the same text, or texts that both go on with a word. */
  predicate EndAlike(rest: string, other: string) {
    rest == other || (rest != "" && other != "" && IsLetter(rest[0]) && IsLetter(other[0]))
  }

  lemma EndsAlike(rest: string, other: string)
    requires EndAlike(rest, other)
    ensures EndsHere(rest) == EndsHere(other)
  {
    if rest != other {
      LetterDoesNotEnd(rest);
      LetterDoesNotEnd(other);
    }
  }

  lemma LetterDoesNotEnd(s: string)
    requires s != "" && IsLetter(s[0])
    ensures !EndsHere(s)
  {
    LetterIsNotBlank(s[0]);
    assert PastBlanks(s, 0) == 0;
    hide IsBlank;
    TrimKeepsTheFirst(s);
  }

  lemma {:induction false} TrimKeepsTheFirst(s: string)
    requires s != "" && !IsBlank(s[0])
    ensures Trim(s) != ""
  {
    hide IsBlank;
    if IsBlank(s[|s| - 1]) {
      TrimKeepsTheFirst(s[..|s| - 1]);
    }
  }

  lemma {:induction false} ScanIgnoresGaps(
    taken: seq<string>, runs: seq<string>, gaps: seq<string>, others: seq<string>, tail: string, followed: bool
  )
    requires |gaps| == |others| == |runs| && IsPrint(runs, gaps, tail) && IsPrint(runs, others, tail)
    ensures var c, d := Scan(taken, Printed(runs, gaps, tail), followed), Scan(taken, Printed(runs, others, tail), followed);
      c.words == d.words && EndAlike(c.rest, d.rest)
    decreases runs
  {
    hide IsPrint, NextWord, Worded, StepFor, IsLetter;
    PrintedGoesOn(runs, gaps, tail);
    PrintedGoesOn(runs, others, tail);
    if runs != [] {
      PrintedStep(runs, gaps, tail);
      PrintedStep(runs, others, tail);
      var rest, other := Printed(runs[1..], gaps[1..], tail), Printed(runs[1..], others[1..], tail);
      PrintedGoesOn(runs[1..], gaps[1..], tail);
      PrintedGoesOn(runs[1..], others[1..], tail);
      var step := StepFor(Worded(runs[0]), taken, followed);
      var more := taken + [if step.FollowPer? then "per" else Worded(runs[0])];
      EnoughAlike(more, rest, other, followed || step.FollowPer?);
      hide Printed, HasTakenEnough;
      ScanIgnoresGaps(more, runs[1..], gaps[1..], others[1..], tail, followed || step.FollowPer?);
    }
  }

  lemma EnoughAlike(words: seq<string>, rest: string, other: string, followed: bool)
    requires EndAlike(rest, other)
    ensures HasTakenEnough(words, rest, followed) == HasTakenEnough(words, other, followed)
  {
    hide Lower;
    if rest != other {
      LetterIsNotBlank(rest[0]);
      LetterIsNotBlank(other[0]);
    }
  }

  /**
   * What stands between the words plays no part: a comma, a semicolon or a bracket directly after
   * a word is passed over with it, so the reading is that of the same words set apart by spaces.
   * Only a mark that follows white space or another mark is seen.
   */
  lemma {:induction false} GapsPlayNoPart(runs: seq<string>, gaps: seq<string>, others: seq<string>, tail: string)
    requires |gaps| == |others| == |runs| && IsPrint(runs, gaps, tail) && IsPrint(runs, others, tail)
    ensures UnitAfter(Printed(runs, gaps, tail)) == UnitAfter(Printed(runs, others, tail))
  {
    hide IsPrint, Scan, Printed, EndsHere, WithoutPer, Spaced, CarriesADigit, EndAlike;
    ScanIgnoresGaps([], runs, gaps, others, tail, false);
    var c, d := Scan([], Printed(runs, gaps, tail), false), Scan([], Printed(runs, others, tail), false);
    EndsAlike(c.rest, d.rest);
  }

  /**
   * When a unit ends before another word than "per", whatever mark stands directly after it:
   * exactly where that word belongs to no unit, is no measure noun, or opens something else.
   */
  lemma {:induction false} MarkEndsTheUnitExactly(runs: seq<string>, gaps: seq<string>, tail: string)
    requires |gaps| == |runs| && IsPrint(runs, gaps, tail) && IsHead(WordsOf(runs)) && |runs| < MOST_UNIT_WORDS
    requires NextWord(tail).Some? && Plain(NextWord(tail).value.word) != "per"
    ensures var words, word := WordsOf(runs), NextWord(tail).value.word;
      UnitAfter(Printed(runs, gaps, tail)) == Some(Spaced(words)) <==>
      || EndsTheUnit(Plain(word)) || !ContinuesAUnit(Plain(word))
      || OpensSomethingElse(word, words[|words| - 1])
  {
    WordStartsWithALetter(tail);
    PrintedUnitIsRead(runs, gaps, tail);
    HeadIsNotRated(WordsOf(runs));
    NextWordDoesNotEnd(tail);
    hide IsPrint, IsHead, UnitAfter, Spaced, IsRated, EndsHere, NextWord, Plain, EndsTheUnit, ContinuesAUnit;
    hide OpensSomethingElse, Printed, WordsOf;
  }

  lemma NextWordDoesNotEnd(s: string)
    requires NextWord(s).Some?
    ensures !EndsHere(s)
  {
    hide Trim;
    LetterDoesNotEnd(s);
  }

  lemma {:induction false} HeadIsNotRated(words: seq<string>)
    requires IsHead(words)
    ensures !IsRated(words)
  {
    PerEndsTheUnit();
    hide EndsTheUnit, ContinuesAUnit, OpensSomethingElse, Plain;
  }

  predicate IsSmallWord(w: string) {
    0 < |w| <= MOST_WORD_LETTERS && forall i :: 0 <= i < |w| ==> IsSmall(w[i])
  }

  lemma {:induction false} SmallWordIsItself(w: string)
    requires IsSmallWord(w)
    ensures IsRun(w) && Worded(w) == w && Plain(w) == w
  {
    assert Lower(w) == w;
  }

  lemma {:induction false} LastWordReads(run: string)
    requires IsRun(run)
    ensures NextWord(run) == Some(Token(Worded(run), "")) && !EndsHere(run)
  {
    LetterDoesNotEnd(run);
    WordRunIs(run, |run|);
    assert run[..|run|] == run;
    hide EndsHere, Worded, IsBlank;
  }

  lemma {:induction false} SmallPairIsAHead(first: string, noun: string)
    requires IsSmallWord(first) && !EndsTheUnit(first)
    requires IsSmallWord(noun) && ContinuesAUnit(noun) && !EndsTheUnit(noun)
    ensures IsHead([first, noun]) && WordsOf([first, noun]) == [first, noun]
  {
    SmallWordIsItself(first);
    SmallWordIsItself(noun);
    hide EndsTheUnit, ContinuesAUnit, Plain, Worded;
    assert [first, noun][1..] == [noun];
  }

  /** A word that is no measure noun ends a head before it. */
  lemma {:induction false} HeadEndsAt(words: seq<string>, word: string)
    requires IsHead(words) && IsSmallWord(word) && !EndsTheUnit(word) && !ContinuesAUnit(word)
    ensures UnitEnds(words, word)
  {
    HeadIsNotRated(words);
    SmallWordIsItself(word);
    LastWordReads(word);
    hide NextWord, EndsHere, Plain, IsRated, EndsTheUnit, ContinuesAUnit, IsRun, Worded, HasTakenEnough;
    hide OpensSomethingElse;
  }

  lemma TwoPrinted(first: string, gap: string, second: string, after: string, tail: string)
    ensures Printed([first, second], [gap, after], tail) == first + gap + second + after + tail
    ensures Spaced([first, second]) == first + " " + second
  {
    assert [first, second][1..] == [second] && [gap, after][1..] == [after];
    assert Printed([second], [after], tail) == second + after + tail;
  }

  /**
   * So a comma between a unit's first word and a measure noun does not end the unit, which runs
   * across it into the next clause.
   */
  lemma {:induction false} CommaIsRunAcross(first: string, noun: string, after: string)
    requires IsSmallWord(first) && !EndsTheUnit(first)
    requires IsSmallWord(noun) && ContinuesAUnit(noun) && !EndsTheUnit(noun)
    requires IsSmallWord(after) && !ContinuesAUnit(after) && !EndsTheUnit(after)
    ensures UnitAfter(first + ", " + noun + " " + after) == Some(first + " " + noun)
  {
    var runs, gaps := [first, noun], [", ", " "];
    SmallPairIsAHead(first, noun);
    HeadEndsAt(runs, after);
    assert IsPrint(runs, gaps, after) by {
      SmallWordIsItself(first);
      SmallWordIsItself(noun);
      LetterIsNotBlank(after[0]);
      hide IsRun;
      assert IsGap(", ") && IsGap(" ");
    }
    hide IsPrint, IsHead, EndsTheUnit, ContinuesAUnit, IsSmallWord, UnitEnds, WordsOf, UnitAfter;
    TwoPrinted(first, ", ", noun, " ", after);
    PrintedUnitIsRead(runs, gaps, after);
    hide Printed, Spaced;
  }

  /** A rate "per month", then a clause about days: what is read is "month day". */
  lemma {:induction false} MonthRunsIntoDay()
    ensures UnitAfter("month, day charges") == Some("month day")
  {
    hide UnitAfter;
    CommaIsRunAcross("month", "day", "charges");
    assert "month" + ", " + "day" + " " + "charges" == "month, day charges";
    assert "month" + " " + "day" == "month day";
  }
}
