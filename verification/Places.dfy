/**
 * Districts and talukas: which names are looked for on a page, how a place is written as a value
 * and read back, and which unit the loader takes it for.
 */
module Places {
  import opened Blanks
  import opened Wrappers

  datatype Level = District | Taluka

  datatype Entry = Entry(name: string, level: Level)

  // ----- How a place is written -----

  function Suffix(level: Level): string {
    match level
    case District => " district"
    case Taluka => " taluka"
  }

  function PlaceValue(name: string, level: Level): string {
    name + Suffix(level)
  }

  predicate EndsWith(s: string, suffix: string) {
    |suffix| <= |s| && s[|s| - |suffix|..] == suffix
  }

  function ParseAs(trimmed: string, level: Level): Option<Entry>
    requires |Suffix(level)| <= |trimmed|
  {
    var name := Trim(trimmed[..|trimmed| - |Suffix(level)|]);
    if name == "" then None else Some(Entry(name, level))
  }

  /** A value read back: its last word says the level, what stands before it the name. */
  function ParsePlaceValue(value: string): Option<Entry> {
    var trimmed := Trim(value);
    if EndsWith(Lower(trimmed), Suffix(District)) then ParseAs(trimmed, District)
    else if EndsWith(Lower(trimmed), Suffix(Taluka)) then ParseAs(trimmed, Taluka)
    else None
  }

  predicate IsTrimmed(s: string) {
    Trim(s) == s
  }

  lemma {:induction false} TrimIsTrimmed(s: string)
    ensures IsTrimmed(Trim(s))
    decreases |s|
  {
    if s != "" && IsBlank(s[0]) {
      TrimIsTrimmed(s[1..]);
    } else if s != "" && IsBlank(s[|s| - 1]) {
      TrimIsTrimmed(s[..|s| - 1]);
    }
  }

  lemma TrimmedEdges(s: string)
    requires s != ""
    ensures IsTrimmed(s) <==> !IsBlank(s[0]) && !IsBlank(s[|s| - 1])
  {
    if IsBlank(s[0]) {
      TrimShrinks(s[1..]);
    } else if IsBlank(s[|s| - 1]) {
      TrimShrinks(s[..|s| - 1]);
    }
  }

  lemma {:induction false} TrimShrinks(s: string)
    ensures |Trim(s)| <= |s|
    decreases |s|
  {
    var a, b := TrimCuts(s);
  }

  lemma SuffixIsInk(level: Level)
    ensures var s := Suffix(level); IsBlank(s[0]) && !IsBlank(s[1]) && !IsBlank(s[|s| - 1]) && Lower(s) == s
  {
  }

  lemma LowerConcat(a: string, b: string)
    ensures Lower(a + b) == Lower(a) + Lower(b)
  {
  }

  lemma LastDiffers(s: string, suffix: string)
    requires s != "" && suffix != "" && s[|s| - 1] != suffix[|suffix| - 1]
    ensures !EndsWith(s, suffix)
  {
    if |suffix| <= |s| {
      assert s[|s| - |suffix|..][|suffix| - 1] == s[|s| - 1];
    }
  }

  lemma EndsWithSuffix(name: string, level: Level)
    ensures EndsWith(Lower(PlaceValue(name, level)), Suffix(level))
    ensures level.Taluka? ==> !EndsWith(Lower(PlaceValue(name, level)), Suffix(District))
  {
    LowerConcat(name, Suffix(level));
    SuffixIsInk(level);
    var s := Lower(PlaceValue(name, level));
    assert s[|s| - |Suffix(level)|..] == Suffix(level);
    if level.Taluka? {
      LastDiffers(s, Suffix(District));
    }
  }

  /** A name that is only white space, or none, cannot be read back. */
  lemma {:induction false} BlankNameIsLost(level: Level)
    ensures ParsePlaceValue(PlaceValue("", level)) == None
  {
    var word := Suffix(level)[1..];
    SuffixIsInk(level);
    assert PlaceValue("", level) == Suffix(level);
    TrimmedEdges(word);
    assert Trim(Suffix(level)) == word;
    var w := Lower(word);
    assert |w| < |Suffix(level)|;
    if level.District? {
      LastDiffers(w, Suffix(Taluka));
    }
  }

  /** Reading a value back gives the place exactly when its name is trimmed and not empty. */
  lemma {:induction false} ParseUndoesPlaceValue(name: string, level: Level)
    ensures ParsePlaceValue(PlaceValue(name, level)) == Some(Entry(name, level)) <==> name != "" && IsTrimmed(name)
  {
    hide Trim;
    SuffixIsInk(level);
    var value := PlaceValue(name, level);
    if name == "" {
      BlankNameIsLost(level);
    } else if IsTrimmed(name) {
      TrimmedEdges(name);
      TrimmedEdges(value);
      EndsWithSuffix(name, level);
      assert value[..|value| - |Suffix(level)|] == name;
    } else if ParsePlaceValue(value) == Some(Entry(name, level)) {
      TrimIsTrimmed(Trim(value)[..|Trim(value)| - |Suffix(level)|]);
    }
  }

  /** The words a value ends in, by level. */
  predicate EndsInLevel(trimmed: string, stem: string, word: string, level: Level) {
    trimmed == stem + word && Lower(word) == if level == District then " district" else " taluka"
  }

  lemma EndsInAreSplits(trimmed: string, level: Level)
    ensures EndsWith(Lower(trimmed), Suffix(level)) <==> exists stem, word :: EndsInLevel(trimmed, stem, word, level)
    ensures forall stem, word :: EndsInLevel(trimmed, stem, word, level) ==>
      |Suffix(level)| <= |trimmed| && stem == trimmed[..|trimmed| - |Suffix(level)|]
  {
    var n := |trimmed| - |Suffix(level)|;
    if EndsWith(Lower(trimmed), Suffix(level)) {
      assert Lower(trimmed[n..]) == Lower(trimmed)[n..];
      assert EndsInLevel(trimmed, trimmed[..n], trimmed[n..], level);
    }
    forall stem, word | EndsInLevel(trimmed, stem, word, level)
      ensures n >= 0 && stem == trimmed[..n] && EndsWith(Lower(trimmed), Suffix(level))
    {
      assert |Lower(word)| == |word|;
      assert Lower(trimmed)[n..] == Lower(word);
    }
  }

  /**
   * How any value is read: trimmed, it ends in the word of a level, in any case, and what is
   * before that is the name; a blank name, or another ending, is no place.
   */
  lemma {:induction false} ParseExactly(value: string)
    ensures forall stem, word, level :: EndsInLevel(Trim(value), stem, word, level) ==>
      ParsePlaceValue(value) == if Trim(stem) == "" then None else Some(Entry(Trim(stem), level))
    ensures (forall stem, word, level :: !EndsInLevel(Trim(value), stem, word, level)) ==> ParsePlaceValue(value) == None
  {
    var trimmed := Trim(value);
    EndsInAreSplits(trimmed, District);
    EndsInAreSplits(trimmed, Taluka);
    EndsInOne(Lower(trimmed));
    hide Trim, EndsInLevel, EndsWith;
    forall stem, word, level | EndsInLevel(trimmed, stem, word, level)
      ensures ParsePlaceValue(value) == if Trim(stem) == "" then None else Some(Entry(Trim(stem), level))
    {
      assert EndsWith(Lower(trimmed), Suffix(level));
      assert level == District || level == Taluka;
    }
  }

  lemma EndsInOne(s: string)
    ensures !(EndsWith(s, Suffix(District)) && EndsWith(s, Suffix(Taluka)))
  {
    if EndsWith(s, Suffix(District)) {
      assert s[|s| - |Suffix(District)|..][|Suffix(District)| - 1] == s[|s| - 1];
      LastDiffers(s, Suffix(Taluka));
    }
  }

  // ----- Names as reports write them -----

  /** Some districts are named with the word itself, which reports leave out or write small. */
  function BareName(name: string): string {
    var n := |name| - 8;
    if n >= 1 && Lower(name)[n..] == "district" && IsBlank(name[n - 1]) then Trim(name[..n]) else Trim(name)
  }

  lemma BareIsTrimmed(name: string)
    ensures IsTrimmed(BareName(name))
  {
    if |name| >= 8 {
      TrimIsTrimmed(name[..|name| - 8]);
    }
    TrimIsTrimmed(name);
  }

  /** The word District at the end of a name, in any case, after white space. */
  ghost predicate EndsInDistrict(name: string, stem: string, gap: string, word: string) {
    name == stem + gap + word && gap != "" && AllBlank(gap) && Lower(word) == "district"
  }

  /** That word is dropped, with the white space before it; a name that does not end so is only trimmed. */
  lemma {:induction false} BareNameDropsDistrict(name: string)
    ensures forall stem, gap, word :: EndsInDistrict(name, stem, gap, word) ==> BareName(name) == Trim(stem)
    ensures (forall stem, gap, word :: !EndsInDistrict(name, stem, gap, word)) ==> BareName(name) == Trim(name)
  {
    forall stem, gap, word | EndsInDistrict(name, stem, gap, word) ensures BareName(name) == Trim(stem) {
      DistrictDropped(name, stem, gap, word);
    }
    var n := |name| - 8;
    if n >= 1 && Lower(name)[n..] == "district" && IsBlank(name[n - 1]) {
      assert name == name[..n - 1] + [name[n - 1]] + name[n..];
      assert Lower(name[n..]) == Lower(name)[n..];
      assert EndsInDistrict(name, name[..n - 1], [name[n - 1]], name[n..]);
    }
  }

  lemma DistrictDropped(name: string, stem: string, gap: string, word: string)
    requires EndsInDistrict(name, stem, gap, word)
    ensures BareName(name) == Trim(stem)
  {
    var n := |name| - 8;
    assert |Lower(word)| == 8 && name[n..] == word && name[..n] == stem + gap;
    assert Lower(name)[n..] == Lower(word);
    assert name[n - 1] == gap[|gap| - 1];
    hide Trim;
    assert "" + stem + gap == stem + gap;
    TrimIgnoresBlanks("", stem, gap);
  }

  // ----- The gazetteer -----

  const SHORTEST_NAME: nat := 4

  /** The bare names of one level, one for each entry. */
  function Named(entries: seq<Entry>, level: Level): seq<string> {
    if entries == [] then []
    else
      var last := entries[|entries| - 1];
      Named(entries[..|entries| - 1], level) + if last.level == level then [BareName(last.name)] else []
  }

  function Count(names: seq<string>, name: string): nat {
    multiset(names)[name]
  }

  /** What may be matched: every district, and each taluka whose name is its alone and not short. */
  predicate IsMatchable(entries: seq<Entry>, e: Entry) {
    match e.level
    case District => e.name in Named(entries, District)
    case Taluka =>
      && Count(Named(entries, Taluka), e.name) == 1
      && e.name !in Named(entries, District)
      && |e.name| >= SHORTEST_NAME
  }

  predicate IsLongestFirst(kept: seq<Entry>) {
    forall i, j :: 0 <= i < j < |kept| ==> |kept[i].name| >= |kept[j].name|
  }

  predicate AreDistinct(kept: seq<Entry>) {
    forall i, j :: 0 <= i < j < |kept| ==> kept[i] != kept[j]
  }

  /** A stable sort, longest name first. */
  function Placed(kept: seq<Entry>, e: Entry): (r: seq<Entry>)
    ensures multiset(r) == multiset(kept) + multiset{e}
  {
    if kept == [] || |kept[|kept| - 1].name| >= |e.name| then kept + [e]
    else
      assert kept == kept[..|kept| - 1] + [kept[|kept| - 1]];
      Placed(kept[..|kept| - 1], e) + [kept[|kept| - 1]]
  }

  function Sorted(kept: seq<Entry>): (r: seq<Entry>)
    ensures multiset(r) == multiset(kept)
  {
    if kept == [] then []
    else
      assert kept == kept[..|kept| - 1] + [kept[|kept| - 1]];
      Placed(Sorted(kept[..|kept| - 1]), kept[|kept| - 1])
  }

  lemma {:induction false} PlacedIsLongestFirst(kept: seq<Entry>, e: Entry)
    requires IsLongestFirst(kept)
    ensures IsLongestFirst(Placed(kept, e))
  {
    if kept != [] && |kept[|kept| - 1].name| < |e.name| {
      var front, last := kept[..|kept| - 1], kept[|kept| - 1];
      PlacedIsLongestFirst(front, e);
      var r := Placed(front, e);
      forall i | 0 <= i < |r| ensures |r[i].name| >= |last.name| {
        assert r[i] in multiset(r);
        assert r[i] in multiset(front) || r[i] == e;
      }
    }
  }

  lemma {:induction false} SortedIsLongestFirst(kept: seq<Entry>)
    ensures IsLongestFirst(Sorted(kept))
  {
    if kept != [] {
      SortedIsLongestFirst(kept[..|kept| - 1]);
      PlacedIsLongestFirst(Sorted(kept[..|kept| - 1]), kept[|kept| - 1]);
    }
  }

  lemma {:induction false} DistinctShuffled(a: seq<Entry>, b: seq<Entry>)
    requires AreDistinct(a) && multiset(a) == multiset(b)
    ensures AreDistinct(b) && forall e :: e in b <==> e in a
  {
    forall e ensures e in b <==> e in a {
      assert e in multiset(a) <==> e in multiset(b);
    }
    forall i, j | 0 <= i < j < |b| ensures b[i] != b[j] {
      if b[i] == b[j] {
        assert b == b[..i] + [b[i]] + b[i + 1..j] + [b[j]] + b[j + 1..];
        assert multiset(b)[b[i]] >= 2;
        AtMostOnce(a, b[i]);
      }
    }
  }

  lemma {:induction false} AtMostOnce(a: seq<Entry>, e: Entry)
    requires AreDistinct(a)
    ensures multiset(a)[e] <= 1
  {
    if a != [] {
      var front, last := a[..|a| - 1], a[|a| - 1];
      AtMostOnce(front, e);
      assert a == front + [last];
      if e == last {
        assert e !in front;
      }
    }
  }

  /** Who is kept: the gazetteer is exactly the matchable places, each once, longest name first. */
  ghost predicate IsGazetteer(entries: seq<Entry>, kept: seq<Entry>) {
    && (forall e :: e in kept <==> IsMatchable(entries, e))
    && AreDistinct(kept) && IsLongestFirst(kept)
  }

  /** Where a bare name of this level stands among the entries. */
  ghost function WhereNamed(entries: seq<Entry>, level: Level, name: string): set<nat> {
    set i: nat | i < |entries| && entries[i].level == level && BareName(entries[i].name) == name
  }

  lemma WhereNamedPush(entries: seq<Entry>, e: Entry, level: Level, name: string)
    ensures WhereNamed(entries + [e], level, name) ==
      WhereNamed(entries, level, name) + if e.level == level && BareName(e.name) == name then {|entries|} else {}
    ensures |entries| !in WhereNamed(entries, level, name)
  {
    hide BareName;
  }

  lemma {:induction false} NamedAreThere(entries: seq<Entry>, level: Level, name: string)
    ensures Count(Named(entries, level), name) == |WhereNamed(entries, level, name)|
    ensures name in Named(entries, level) <==> WhereNamed(entries, level, name) != {}
  {
    hide BareName;
    if entries != [] {
      var front, last := entries[..|entries| - 1], entries[|entries| - 1];
      assert entries == front + [last];
      NamedAreThere(front, level, name);
      WhereNamedPush(front, last, level, name);
      hide WhereNamed;
    }
  }

  /**
   * Which places are matched: a district of any bare name, and a taluka of at least four letters
   * whose bare name one taluka has and no district.
   */
  lemma {:induction false} MatchableExactly(entries: seq<Entry>, e: Entry)
    ensures IsMatchable(entries, e) <==>
      if e.level == District then WhereNamed(entries, District, e.name) != {}
      else |WhereNamed(entries, Taluka, e.name)| == 1 && WhereNamed(entries, District, e.name) == {} && |e.name| >= 4
  {
    NamedAreThere(entries, District, e.name);
    NamedAreThere(entries, Taluka, e.name);
    hide Named, WhereNamed;
  }

  lemma NoNames(entries: seq<Entry>)
    ensures Named(entries[..0], District) == [] && Named(entries[..0], Taluka) == []
  {
  }

  /** One more entry adds its bare name to its own level and changes no other count. */
  lemma {:induction false} NamedNext(entries: seq<Entry>, i: nat)
    requires i < |entries|
    ensures var e := entries[i];
      var other := if e.level.District? then Taluka else District;
      var name, was, now := BareName(e.name), Named(entries[..i], e.level), Named(entries[..i + 1], e.level);
      && (forall n :: n in now <==> n in was || n == name)
      && (forall n :: Count(now, n) == Count(was, n) + if n == name then 1 else 0)
      && (name !in was ==> Count(was, name) == 0)
      && Named(entries[..i + 1], other) == Named(entries[..i], other)
  {
    hide BareName;
    assert entries[..i + 1][..i] == entries[..i];
    assert entries[..i + 1][i] == entries[i];
  }

  /** District names and taluka names with their counts, each in the order first met. */
  method CountNames(entries: seq<Entry>) returns (districts: seq<string>, talukas: seq<string>, counts: map<string, nat>)
    ensures forall n :: n in districts <==> n in Named(entries, District)
    ensures forall i, j :: 0 <= i < j < |districts| ==> districts[i] != districts[j]
    ensures forall n :: n in talukas <==> n in counts
    ensures forall i, j :: 0 <= i < j < |talukas| ==> talukas[i] != talukas[j]
    ensures forall n :: n in counts <==> n in Named(entries, Taluka)
    ensures forall n :: n in counts ==> counts[n] == Count(Named(entries, Taluka), n)
  {
    hide BareName, Named;
    NoNames(entries);
    districts, talukas, counts := [], [], map[];
    for i := 0 to |entries|
      invariant forall n :: n in districts <==> n in Named(entries[..i], District)
      invariant forall a, b :: 0 <= a < b < |districts| ==> districts[a] != districts[b]
      invariant forall n :: n in talukas <==> n in counts
      invariant forall a, b :: 0 <= a < b < |talukas| ==> talukas[a] != talukas[b]
      invariant forall n :: n in counts <==> n in Named(entries[..i], Taluka)
      invariant forall n :: n in counts ==> counts[n] == Count(Named(entries[..i], Taluka), n)
    {
      NamedNext(entries, i);
      var name := BareName(entries[i].name);
      if entries[i].level.District? {
        if name !in districts {
          districts := districts + [name];
        }
        continue;
      }
      counts := counts[name := (if name in counts then counts[name] else 0) + 1];
      if name !in talukas {
        talukas := talukas + [name];
      }
    }
    assert entries[..|entries|] == entries;
  }

  /** The names looked for on a page: those that stand for one place each, the longest first. */
  method GazetteerOf(entries: seq<Entry>) returns (gazetteer: seq<Entry>)
    ensures IsGazetteer(entries, gazetteer)
  {
    hide BareName, Named;
    var districts, talukas, counts := CountNames(entries);
    var kept: seq<Entry> := [];
    for i := 0 to |districts|
      invariant |kept| == i && forall k :: 0 <= k < i ==> kept[k] == Entry(districts[k], District)
    {
      kept := kept + [Entry(districts[i], District)];
    }
    assert forall n :: Entry(n, District) in kept <==> n in districts;
    for i := 0 to |talukas|
      invariant AreDistinct(kept)
      invariant forall n :: Entry(n, District) in kept <==> n in districts
      invariant forall n :: Entry(n, Taluka) in kept <==> n in talukas[..i] && IsMatchable(entries, Entry(n, Taluka))
    {
      var name := talukas[i];
      if counts[name] > 1 || name in districts || |name| < SHORTEST_NAME {
        continue;
      }
      kept := kept + [Entry(name, Taluka)];
    }
    assert talukas[..|talukas|] == talukas;
    forall e: Entry ensures e in kept <==> IsMatchable(entries, e) {
      match e
      case Entry(name, District) => assert e == Entry(name, District);
      case Entry(name, Taluka) => assert e == Entry(name, Taluka);
    }
    gazetteer := Sorted(kept);
    SortedIsLongestFirst(kept);
    DistinctShuffled(kept, gazetteer);
  }

  // ----- What the loader takes a value for -----

  datatype Unit = Unit(id: nat, name: string, level: Level)

  function EntriesOf(units: seq<Unit>): seq<Entry> {
    seq(|units|, i requires 0 <= i < |units| => Entry(units[i].name, units[i].level))
  }

  /** The map by level and bare name: a later unit of one key takes the earlier one's place. */
  function ByName(units: seq<Unit>): map<Entry, nat> {
    if units == [] then map[]
    else
      var u := units[|units| - 1];
      ByName(units[..|units| - 1])[Entry(BareName(u.name), u.level) := u.id]
  }

  /** The unit a confirmed value names, if the state holds one. */
  function Resolve(units: seq<Unit>, value: string): Option<nat> {
    match ParsePlaceValue(value)
    case None => None
    case Some(place) => if place in ByName(units) then Some(ByName(units)[place]) else None
  }

  ghost predicate IsLastNamed(units: seq<Unit>, e: Entry, i: nat) {
    && i < |units| && units[i].level == e.level && BareName(units[i].name) == e.name
    && forall j :: i < j < |units| ==> units[j].level != e.level || BareName(units[j].name) != e.name
  }

  lemma {:induction false} ByNameIsLast(units: seq<Unit>, e: Entry)
    ensures e in ByName(units) <==> e.name in Named(EntriesOf(units), e.level)
    ensures e in ByName(units) ==> exists i: nat :: IsLastNamed(units, e, i) && ByName(units)[e] == units[i].id
  {
    hide BareName;
    if units != [] {
      var n := |units| - 1;
      var front := units[..n];
      ByNameIsLast(front, e);
      assert EntriesOf(units)[..n] == EntriesOf(front);
      if units[n].level == e.level && BareName(units[n].name) == e.name {
        assert IsLastNamed(units, e, n);
      } else if e in ByName(front) {
        var i: nat :| IsLastNamed(front, e, i) && ByName(front)[e] == front[i].id;
        assert IsLastNamed(units, e, i);
      }
    }
  }

  /** What a value resolves to: the last unit of the place it is read as, if there is one. */
  lemma {:induction false} ResolveExactly(units: seq<Unit>, value: string, id: nat)
    ensures Resolve(units, value) == Some(id) <==>
      exists e, i: nat :: ParsePlaceValue(value) == Some(e) && IsLastNamed(units, e, i) && units[i].id == id
  {
    hide BareName, ParsePlaceValue, ByName;
    var p := ParsePlaceValue(value);
    if p.Some? {
      ByNameIsLast(units, p.value);
      if i: nat :| IsLastNamed(units, p.value, i) && units[i].id == id {
        LastIsNamed(units, p.value, i);
        var j: nat :| IsLastNamed(units, p.value, j) && ByName(units)[p.value] == units[j].id;
        assert i == j;
      }
    }
  }

  lemma {:induction false} LastIsNamed(units: seq<Unit>, e: Entry, i: nat)
    requires IsLastNamed(units, e, i)
    ensures e in ByName(units)
  {
    hide BareName;
    if i < |units| - 1 {
      LastIsNamed(units[..|units| - 1], e, i);
    }
  }

  predicate IsNamed(u: Unit, e: Entry) {
    u.level == e.level && BareName(u.name) == e.name
  }

  function Tally(units: seq<Unit>, e: Entry): nat {
    if units == [] then 0
    else Tally(units[..|units| - 1], e) + if IsNamed(units[|units| - 1], e) then 1 else 0
  }

  lemma {:induction false} TallyIsTheCount(units: seq<Unit>, e: Entry)
    ensures Tally(units, e) == Count(Named(EntriesOf(units), e.level), e.name)
  {
    hide BareName;
    if units != [] {
      var n := |units| - 1;
      TallyIsTheCount(units[..n], e);
      assert EntriesOf(units)[..n] == EntriesOf(units[..n]);
    }
  }

  lemma {:induction false} TallyHolds(units: seq<Unit>, e: Entry, i: nat)
    requires i < |units| && IsNamed(units[i], e)
    ensures Tally(units, e) >= 1
  {
    hide IsNamed;
    if i < |units| - 1 {
      TallyHolds(units[..|units| - 1], e, i);
    }
  }

  lemma {:induction false} TalliedOnce(units: seq<Unit>, e: Entry, i: nat, j: nat)
    requires i < |units| && j < |units| && IsNamed(units[i], e) && IsNamed(units[j], e)
    requires Tally(units, e) == 1
    ensures i == j
  {
    hide IsNamed;
    var n := |units| - 1;
    if i < n {
      TallyHolds(units[..n], e, i);
    }
    if j < n {
      TallyHolds(units[..n], e, j);
    }
    if i < n && j < n {
      TalliedOnce(units[..n], e, i, j);
    }
  }

  lemma {:induction false} NamedIsBare(entries: seq<Entry>, level: Level, name: string)
    requires name in Named(entries, level)
    ensures IsTrimmed(name)
  {
    var last := entries[|entries| - 1];
    BareIsTrimmed(last.name);
    hide BareName, IsTrimmed;
    if name in Named(entries[..|entries| - 1], level) {
      NamedIsBare(entries[..|entries| - 1], level, name);
    }
  }

  /** Every taluka a page is matched against is read back as the one taluka of that name. */
  lemma {:induction false} TalukaResolves(units: seq<Unit>, e: Entry) returns (i: nat)
    requires e.level.Taluka? && IsMatchable(EntriesOf(units), e)
    ensures i < |units| && Resolve(units, PlaceValue(e.name, e.level)) == Some(units[i].id)
    ensures forall j :: 0 <= j < |units| ==> (IsNamed(units[j], e) <==> j == i)
  {
    hide BareName, ParsePlaceValue, PlaceValue, ByName;
    assert e.name in Named(EntriesOf(units), e.level);
    NamedIsBare(EntriesOf(units), e.level, e.name);
    ParseUndoesPlaceValue(e.name, e.level);
    ByNameIsLast(units, e);
    TallyIsTheCount(units, e);
    i :| IsLastNamed(units, e, i) && ByName(units)[e] == units[i].id;
    forall j | 0 <= j < |units| && IsNamed(units[j], e) ensures j == i {
      TalliedOnce(units, e, i, j);
    }
  }

  /** A district a page is matched against is read back as the last unit of its name, if it has one. */
  lemma {:induction false} DistrictResolves(units: seq<Unit>, e: Entry)
    requires e.level.District? && IsMatchable(EntriesOf(units), e)
    ensures var r := Resolve(units, PlaceValue(e.name, e.level));
      if e.name == "" then r == None else exists i: nat :: IsLastNamed(units, e, i) && r == Some(units[i].id)
  {
    hide BareName, ParsePlaceValue, PlaceValue, ByName;
    NamedIsBare(EntriesOf(units), e.level, e.name);
    ParseUndoesPlaceValue(e.name, e.level);
    ByNameIsLast(units, e);
    if e.name == "" {
      BlankNameIsLost(District);
    }
  }
}
