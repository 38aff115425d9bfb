/**
 * The text of a page, and the range of it each text item of the PDF was given.
 *
 * The text is joined from the items, stripped of characters the database cannot hold, and
 * trimmed; the range of an item has to move with every character taken out before it.
 */
module PageText {
  import opened Wrappers

  // ----- Characters -----

  /** A UTF-16 code unit: what the offsets count. */
  newtype Unit = n: int | 0 <= n < 0x1_0000

  type Text = seq<Unit>

  const SPACE: Unit := 0x20
  const NEWLINE: Unit := 0x0A

  /** White space as the pattern language and `trim` understand it. */
  predicate IsSpace(n: Unit) {
    9 <= n <= 13 || n == 0x20 || n == 0xA0 || n == 0x1680 || 0x2000 <= n <= 0x200A
    || n == 0x2028 || n == 0x2029 || n == 0x202F || n == 0x205F || n == 0x3000 || n == 0xFEFF
  }

  /** Control characters a TEXT column refuses. */
  predicate Unstorable(n: Unit) {
    n <= 8 || n == 0x0B || n == 0x0C || 0x0E <= n <= 0x1F
  }

  /** What the two classes hold: ECMAScript's white space, and the control characters but tab and line ends. */
  lemma CharacterClasses(n: Unit)
    ensures IsSpace(n) <==> n in {
      0x09, 0x0A, 0x0B, 0x0C, 0x0D, 0x20, 0xA0, 0x1680, 0x2000, 0x2001, 0x2002, 0x2003, 0x2004, 0x2005, 0x2006,
      0x2007, 0x2008, 0x2009, 0x200A, 0x2028, 0x2029, 0x202F, 0x205F, 0x3000, 0xFEFF
    }
    ensures Unstorable(n) <==> n < 0x20 && n !in {0x09, 0x0A, 0x0D}
  {
  }

  /** A character that is neither dropped nor ever trimmed away. */
  predicate IsInk(c: Unit) {
    !Unstorable(c) && !IsSpace(c)
  }

  // ----- Joining -----

  datatype RawItem = RawItem(str: Text, hasEOL: bool, x: real, y: real, width: real, height: real)

  datatype TextItem = TextItem(index: nat, charStart: nat, charEnd: nat, x0: real, y0: real, x1: real, y1: real)

  function LineOf(item: RawItem): Text {
    item.str + if item.hasEOL then [NEWLINE] else []
  }

  function Joined(raw: seq<RawItem>): Text {
    if raw == [] then [] else Joined(raw[..|raw| - 1]) + LineOf(raw[|raw| - 1])
  }

  /** Where the `i`-th item starts in the joined text. */
  function StartOf(raw: seq<RawItem>, i: nat): nat
    requires i <= |raw|
  {
    |Joined(raw[..i])|
  }

  function ItemAt(raw: seq<RawItem>, i: nat): TextItem
    requires i < |raw|
  {
    var r := raw[i];
    TextItem(i, StartOf(raw, i), StartOf(raw, i) + |r.str|, r.x, r.y, r.x + r.width, r.y + r.height)
  }

  function ItemsOf(raw: seq<RawItem>): (items: seq<TextItem>)
    ensures |items| == |raw|
    ensures forall i :: 0 <= i < |raw| ==> items[i] == ItemAt(raw, i)
  {
    seq(|raw|, i requires 0 <= i < |raw| => ItemAt(raw, i))
  }

  method PageTextOf(raw: seq<RawItem>) returns (content: Text, items: seq<TextItem>)
    ensures content == Joined(raw) && items == ItemsOf(raw)
  {
    content, items := [], [];
    for i := 0 to |raw|
      invariant content == Joined(raw[..i])
      invariant items == ItemsOf(raw)[..i]
    {
      assert raw[..i + 1][..i] == raw[..i];
      var item := raw[i];
      var charStart := |content|;
      content := content + item.str;
      var charEnd := |content|;
      if item.hasEOL {
        content := content + [NEWLINE];
      }
      items := items + [TextItem(i, charStart, charEnd, item.x, item.y, item.x + item.width, item.y + item.height)];
    }
    assert raw[..|raw|] == raw;
  }

  lemma {:induction false} JoinedPrefix(raw: seq<RawItem>, i: nat, j: nat)
    requires i <= j <= |raw|
    ensures Joined(raw[..i]) <= Joined(raw[..j])
    decreases j
  {
    if i < j {
      JoinedPrefix(raw, i, j - 1);
      assert raw[..j][..j - 1] == raw[..j - 1];
    }
  }

  /**
   * Each item's range in the joined text spells it; the ranges run on in order from the start to
   * the end, with a line feed after each item that ends a line and nothing else between.
   */
  lemma {:induction false} JoinSpellsItems(raw: seq<RawItem>, i: nat)
    requires i < |raw|
    ensures var item := ItemAt(raw, i);
      && item.charEnd <= |Joined(raw)|
      && Joined(raw)[item.charStart..item.charEnd] == raw[i].str
      && (i == 0 ==> item.charStart == 0)
      && (raw[i].hasEOL ==> item.charEnd < |Joined(raw)| && Joined(raw)[item.charEnd] == 0x0A)
      && (if i + 1 < |raw| then ItemAt(raw, i + 1).charStart else |Joined(raw)|)
         == item.charEnd + if raw[i].hasEOL then 1 else 0
  {
    JoinedPrefix(raw, i + 1, |raw|);
    assert raw[..|raw|] == raw;
    assert raw[..i + 1][..i] == raw[..i];
    var all, before, front := Joined(raw), Joined(raw[..i]), Joined(raw[..i + 1]);
    assert front == before + LineOf(raw[i]) && front <= all;
    hide Joined;
    assert all[|before|..|before| + |raw[i].str|] == front[|before|..|before| + |raw[i].str|] == raw[i].str;
    assert i == 0 ==> raw[..0] == [];
    assert i + 1 == |raw| ==> raw[..i + 1] == raw;
    NothingIsJoined();
  }

  lemma NothingIsJoined()
    ensures Joined([]) == []
  {
  }

  /** Every character of the joined text is a line break or belongs to one item. */
  lemma {:induction false} JoinedIsItems(raw: seq<RawItem>, n: nat, k: nat) returns (i: nat)
    requires n <= |raw| && k < |Joined(raw[..n])|
    requires Joined(raw[..n])[k] != NEWLINE
    ensures i < n && StartOf(raw, i) <= k < StartOf(raw, i) + |raw[i].str|
  {
    assert n > 0;
    assert raw[..n][..n - 1] == raw[..n - 1];
    if k < |Joined(raw[..n - 1])| {
      i := JoinedIsItems(raw, n - 1, k);
    } else {
      i := n - 1;
    }
  }

  // ----- Cleaning -----

  function Stored(s: Text): Text {
    if s == [] then [] else Stored(s[..|s| - 1]) + StoredOne(s[|s| - 1])
  }

  function StoredOne(c: Unit): Text {
    if Unstorable(c) then [] else [c]
  }

  /** How many characters `trimStart` takes. */
  function Leading(s: Text): (n: nat)
    ensures n <= |s|
    ensures forall i :: 0 <= i < n ==> IsSpace(s[i])
    ensures n < |s| ==> !IsSpace(s[n])
  {
    if s == [] || !IsSpace(s[0]) then 0
    else
      var n := Leading(s[1..]);
      assert forall i :: 0 <= i < n ==> IsSpace(s[1..][i]) && s[1..][i] == s[i + 1];
      1 + n
  }

  /** Where `trimEnd` cuts, having trimmed the start. */
  function Trailing(s: Text, from: nat): (n: nat)
    requires from <= |s|
    ensures from <= n <= |s|
    ensures forall i :: n <= i < |s| ==> IsSpace(s[i])
    ensures n > from ==> !IsSpace(s[n - 1])
  {
    if |s| == from || !IsSpace(s[|s| - 1]) then |s| else Trailing(s[..|s| - 1], from)
  }

  function Trim(s: Text): Text {
    s[Leading(s)..Trailing(s, Leading(s))]
  }

  /** What the database stores of a page. */
  function Cleaned(raw: Text): Text {
    Trim(Stored(raw))
  }

  /** A character kept: storable, and with ink at or before it and at or after it. */
  predicate Survives(raw: Text, i: nat)
    requires i < |raw|
  {
    && !Unstorable(raw[i])
    && (exists j :: 0 <= j <= i && IsInk(raw[j]))
    && (exists j :: i <= j < |raw| && IsInk(raw[j]))
  }

  /** The surviving characters of a range, in order. */
  function Survivors(raw: Text, lo: nat, hi: nat): Text
    requires lo <= hi <= |raw|
  {
    if lo == hi then []
    else Survivors(raw, lo, hi - 1) + (if Survives(raw, hi - 1) then [raw[hi - 1]] else [])
  }

  // ----- Where a character goes -----

  lemma {:induction false} StoredPrefix(raw: Text, i: nat, j: nat)
    requires i <= j <= |raw|
    ensures Stored(raw[..i]) <= Stored(raw[..j])
    decreases j
  {
    if i < j {
      StoredPrefix(raw, i, j - 1);
      assert raw[..j][..j - 1] == raw[..j - 1];
    }
  }

  /** A storable character sits in the stored text where the storable ones before it end. */
  lemma {:induction false} StoredAt(raw: Text, i: nat)
    requires i < |raw|
    ensures Stored(raw[..i]) + StoredOne(raw[i]) <= Stored(raw)
  {
    StoredPrefix(raw, i + 1, |raw|);
    assert raw[..|raw|] == raw;
    assert raw[..i + 1][..i] == raw[..i];
  }

  lemma {:induction false} StoredOrigin(raw: Text, k: nat) returns (i: nat)
    requires k < |Stored(raw)|
    ensures i < |raw| && !Unstorable(raw[i]) && |Stored(raw[..i])| == k && raw[i] == Stored(raw)[k]
  {
    var front := raw[..|raw| - 1];
    if k < |Stored(front)| {
      i := StoredOrigin(front, k);
      assert front[..i] == raw[..i];
    } else {
      i := |raw| - 1;
    }
  }

  /** The stretch of the stored text that trimming keeps. */
  function From(raw: Text): nat {
    Leading(Stored(raw))
  }

  function To(raw: Text): (n: nat)
    ensures From(raw) <= n <= |Stored(raw)|
  {
    Trailing(Stored(raw), From(raw))
  }

  /** A storable character takes a place, so what follows it lands strictly later. */
  lemma {:induction false} LaterLandsLater(raw: Text, i: nat, j: nat)
    requires i < j <= |raw| && !Unstorable(raw[i])
    ensures |Stored(raw[..i])| < |Stored(raw[..j])|
  {
    StoredPrefix(raw, i + 1, j);
    assert raw[..i + 1][..i] == raw[..i];
  }

  lemma {:induction false} InkIsKept(raw: Text, i: nat)
    requires i < |raw| && IsInk(raw[i])
    ensures From(raw) <= |Stored(raw[..i])| < To(raw)
  {
    StoredAt(raw, i);
    assert !IsSpace(Stored(raw)[|Stored(raw[..i])|]);
  }

  lemma {:induction false} SurvivorIsKept(raw: Text, i: nat)
    requires i < |raw| && Survives(raw, i)
    ensures From(raw) <= |Stored(raw[..i])| < To(raw)
  {
    hide From, To, Stored;
    var j :| 0 <= j <= i && IsInk(raw[j]);
    InkIsKept(raw, j);
    StoredPrefix(raw, j, i);
    var k :| i <= k < |raw| && IsInk(raw[k]);
    InkIsKept(raw, k);
    StoredPrefix(raw, i, k);
  }

  lemma TrimmedEndsAreInk(raw: Text)
    requires From(raw) < To(raw)
    ensures !IsSpace(Stored(raw)[From(raw)]) && !IsSpace(Stored(raw)[To(raw) - 1])
  {
  }

  lemma {:induction false} KeptSurvives(raw: Text, i: nat)
    requires i < |raw| && !Unstorable(raw[i])
    requires From(raw) <= |Stored(raw[..i])| < To(raw)
    ensures Survives(raw, i)
  {
    hide From, To, Stored;
    TrimmedEndsAreInk(raw);
    var j := StoredOrigin(raw, From(raw));
    var k := StoredOrigin(raw, To(raw) - 1);
    assert IsInk(raw[j]) && IsInk(raw[k]);
    if i < j { LaterLandsLater(raw, i, j); }
    if k < i { LaterLandsLater(raw, k, i); }
  }

  /** How many characters of the clean text come before raw index `i`. */
  function Moved(raw: Text, i: nat): (n: nat)
    requires i <= |raw|
    ensures n <= |Cleaned(raw)|
  {
    var m := |Stored(raw[..i])|;
    if m <= From(raw) then 0 else if m >= To(raw) then To(raw) - From(raw) else m - From(raw)
  }

  /** A surviving character sits at its moved index; any other moves nothing on. */
  lemma {:induction false} MovedNext(raw: Text, i: nat)
    requires i < |raw|
    ensures Moved(raw, i + 1) == Moved(raw, i) + if Survives(raw, i) then 1 else 0
    ensures Survives(raw, i) ==> Moved(raw, i) < |Cleaned(raw)| && Cleaned(raw)[Moved(raw, i)] == raw[i]
  {
    assert raw[..i + 1][..i] == raw[..i];
    StoredAt(raw, i);
    if Survives(raw, i) {
      SurvivorIsKept(raw, i);
    } else if !Unstorable(raw[i]) && From(raw) <= |Stored(raw[..i])| < To(raw) {
      KeptSurvives(raw, i);
    }
  }

  lemma {:induction false} MovedMonotone(raw: Text, i: nat, j: nat)
    requires i <= j <= |raw|
    ensures Moved(raw, i) <= Moved(raw, j)
    decreases j
  {
    if i < j {
      MovedMonotone(raw, i, j - 1);
      MovedNext(raw, j - 1);
    }
  }

  /** A range of the raw text is, in the clean text, exactly its surviving characters. */
  lemma {:induction false} RangeSpellsSurvivors(raw: Text, lo: nat, hi: nat)
    requires lo <= hi <= |raw|
    ensures Moved(raw, lo) <= Moved(raw, hi)
    ensures Cleaned(raw)[Moved(raw, lo)..Moved(raw, hi)] == Survivors(raw, lo, hi)
    decreases hi
  {
    hide Cleaned, Moved, Survives;
    if lo < hi {
      RangeSpellsSurvivors(raw, lo, hi - 1);
      MovedNext(raw, hi - 1);
      var clean := Cleaned(raw);
      var a, m, b := Moved(raw, lo), Moved(raw, hi - 1), Moved(raw, hi);
      assert clean[a..b] == clean[a..m] + clean[m..b];
    }
  }

  lemma AllMoved(raw: Text)
    ensures Moved(raw, 0) == 0 && Moved(raw, |raw|) == |Cleaned(raw)|
  {
    assert raw[..|raw|] == raw && raw[..0] == [];
  }

  /** The clean text is the survivors of the whole. */
  lemma {:induction false} CleanIsSurvivors(raw: Text)
    ensures Cleaned(raw) == Survivors(raw, 0, |raw|)
  {
    RangeSpellsSurvivors(raw, 0, |raw|);
    AllMoved(raw);
  }
}
