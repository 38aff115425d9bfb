/**
 * The text items of a page, moved to the stored text, and the box around a range of it.
 */
module TextItems {
  import opened PageText
  import opened Wrappers

  // ----- Moving the items -----

  function AtMost(a: nat, b: nat): nat {
    if a <= b then a else b
  }

  /** The part of an item's range that lies in the raw text. */
  function Starts(raw: Text, item: TextItem): nat {
    AtMost(item.charStart, |raw|)
  }

  function Ends(raw: Text, item: TextItem): (n: nat)
    ensures Starts(raw, item) <= n <= |raw|
  {
    if item.charEnd <= Starts(raw, item) then Starts(raw, item) else AtMost(item.charEnd, |raw|)
  }

  /** The item in the stored text, unless none of its characters survive. */
  function MovedItem(raw: Text, item: TextItem): Option<TextItem> {
    var lo, hi := Moved(raw, Starts(raw, item)), Moved(raw, Ends(raw, item));
    if hi <= lo then None else Some(item.(charStart := lo, charEnd := hi))
  }

  function MovedItems(raw: Text, items: seq<TextItem>): seq<TextItem> {
    if items == [] then []
    else
      var last := MovedItem(raw, items[|items| - 1]);
      MovedItems(raw, items[..|items| - 1]) + if last.Some? then [last.value] else []
  }

  /** A raw character's position before the trim; -1 stands for an unstorable one. */
  function Landed(raw: Text, i: nat): int
    requires i < |raw|
  {
    if Unstorable(raw[i]) then -1 else |Stored(raw[..i])|
  }

  /** An entry of the table lands inside the content exactly for a survivor. */
  lemma {:induction false} TableFindsSurvivors(raw: Text, i: nat)
    requires i < |raw|
    ensures var at := Landed(raw, i) - From(raw);
      && (Survives(raw, i) <==> Landed(raw, i) >= 0 && 0 <= at < |Cleaned(raw)|)
      && (Survives(raw, i) ==> at == Moved(raw, i))
  {
    hide Stored, From, To;
    ContentLength(raw);
    if Survives(raw, i) {
      SurvivorIsKept(raw, i);
    } else if !Unstorable(raw[i]) && From(raw) <= |Stored(raw[..i])| < To(raw) {
      KeptSurvives(raw, i);
    }
  }

  lemma ContentLength(raw: Text)
    ensures |Cleaned(raw)| == To(raw) - From(raw)
  {
  }

  /** Between which positions of the stored text an item's survivors lie. */
  method Span(raw: Text, moved: array<int>, start: nat, contentLength: nat, item: TextItem)
    returns (lo: int, hi: int)
    requires moved.Length == |raw| && forall i :: 0 <= i < |raw| ==> moved[i] == Landed(raw, i)
    requires start == From(raw) && contentLength == |Cleaned(raw)|
    ensures lo >= 0 ==> hi >= 0
    ensures MovedItem(raw, item) ==
      if lo < 0 || hi < 0 then None else Some(item.(charStart := lo, charEnd := hi))
  {
    hide Moved, Cleaned, Survives, Landed, From;
    lo, hi := -1, -1;
    var i := item.charStart;
    ghost var first := Moved(raw, Starts(raw, item));
    while i < item.charEnd
      invariant item.charStart <= i
      invariant i <= item.charEnd || i == item.charStart
      invariant var n := Moved(raw, AtMost(i, |raw|));
        if lo < 0 then hi < 0 && n == first else lo == first && hi == n && lo < hi
    {
      if i < |raw| {
        TableFindsSurvivors(raw, i);
        MovedNext(raw, i);
      }
      if i < moved.Length && moved[i] >= 0 {
        var a := moved[i] - start;
        if 0 <= a < contentLength {
          if lo < 0 {
            lo := a;
          }
          hi := a + 1;
        }
      }
      i := i + 1;
    }
  }

  /** The stored text, and every item's range in it: the cleanup moves both together. */
  method CleanWithItems(raw: Text, items: seq<TextItem>) returns (content: Text, adjusted: seq<TextItem>)
    ensures content == Cleaned(raw)
    ensures adjusted == MovedItems(raw, items)
  {
    hide Moved, MovedItem, Leading, Trailing;
    var moved := new int[|raw|](_ => -1);
    var kept: Text := [];
    for i := 0 to |raw|
      invariant kept == Stored(raw[..i])
      invariant forall j :: 0 <= j < i ==> moved[j] == Landed(raw, j)
      invariant forall j :: i <= j < |raw| ==> moved[j] == -1
    {
      assert raw[..i + 1][..i] == raw[..i];
      if !Unstorable(raw[i]) {
        moved[i] := |kept|;
        kept := kept + [raw[i]];
      }
    }
    assert raw[..|raw|] == raw;
    var start := |kept| - |kept[Leading(kept)..]|;
    content := Trim(kept);
    adjusted := [];
    for n := 0 to |items|
      invariant forall j :: 0 <= j < |raw| ==> moved[j] == Landed(raw, j)
      invariant adjusted == MovedItems(raw, items[..n])
    {
      assert items[..n + 1][..n] == items[..n];
      var lo, hi := Span(raw, moved, start, |content|, items[n]);
      if lo >= 0 {
        adjusted := adjusted + [items[n].(charStart := lo, charEnd := hi)];
      }
    }
    assert items[..|items|] == items;
  }

  // ----- What the moved ranges say -----

  /** An item is dropped exactly when nothing of it survives, and otherwise spells what does. */
  lemma {:induction false} MovedItemSpellsSurvivors(raw: Text, item: TextItem)
    ensures var survivors := Survivors(raw, Starts(raw, item), Ends(raw, item));
      match MovedItem(raw, item)
      case None => survivors == []
      case Some(m) =>
        && m == item.(charStart := m.charStart, charEnd := m.charEnd)
        && m.charStart < m.charEnd <= |Cleaned(raw)|
        && Cleaned(raw)[m.charStart..m.charEnd] == survivors
        && survivors != []
  {
    hide Cleaned, Moved, Survivors;
    RangeSpellsSurvivors(raw, Starts(raw, item), Ends(raw, item));
  }

  /** Ranges that follow one another without overlap. */
  ghost predicate InOrder(items: seq<TextItem>) {
    forall i, j :: 0 <= i < j < |items| ==>
      items[i].charEnd <= items[j].charStart && items[i].index < items[j].index
  }

  ghost predicate InText(items: seq<TextItem>, length: nat) {
    forall i :: 0 <= i < |items| ==> items[i].charStart <= items[i].charEnd <= length
  }

  lemma {:induction false} MovedItemsCome(raw: Text, items: seq<TextItem>, k: nat) returns (i: nat)
    requires k < |MovedItems(raw, items)|
    ensures i < |items| && MovedItem(raw, items[i]) == Some(MovedItems(raw, items)[k])
  {
    hide MovedItem;
    var front := items[..|items| - 1];
    if k < |MovedItems(raw, front)| {
      i := MovedItemsCome(raw, front, k);
    } else {
      i := |items| - 1;
    }
  }

  lemma {:induction false} MovedItemsHold(raw: Text, items: seq<TextItem>, i: nat)
    requires i < |items| && MovedItem(raw, items[i]).Some?
    ensures MovedItem(raw, items[i]).value in MovedItems(raw, items)
  {
    hide MovedItem;
    if i < |items| - 1 {
      MovedItemsHold(raw, items[..|items| - 1], i);
    }
  }

  /** Cleaning keeps the ranges inside the text, in order and disjoint. */
  lemma {:induction false} MovedStayInOrder(raw: Text, items: seq<TextItem>)
    requires InOrder(items) && InText(items, |raw|)
    ensures InOrder(MovedItems(raw, items)) && InText(MovedItems(raw, items), |Cleaned(raw)|)
  {
    hide Moved, Cleaned;
    if items != [] {
      var n := |items| - 1;
      var front, moved := items[..n], MovedItems(raw, items[..n]);
      MovedStayInOrder(raw, front);
      forall k | 0 <= k < |moved|
        ensures moved[k].charEnd <= Moved(raw, items[n].charStart) && moved[k].index < items[n].index
      {
        var i := MovedItemsCome(raw, front, k);
        MovedMonotone(raw, items[i].charEnd, items[n].charStart);
      }
    }
  }

  lemma {:induction false} JoinedItemsInOrder(page: seq<RawItem>)
    ensures InOrder(ItemsOf(page)) && InText(ItemsOf(page), |Joined(page)|)
  {
    hide Joined, LineOf;
    forall i, j | 0 <= i < j < |page|
      ensures ItemAt(page, i).charEnd <= ItemAt(page, j).charStart
    {
      JoinSpellsItems(page, i);
      JoinedPrefix(page, i + 1, j);
    }
    forall i | 0 <= i < |page| ensures ItemAt(page, i).charEnd <= |Joined(page)| {
      JoinSpellsItems(page, i);
    }
  }

  /** What the database stores of a page, and where its items stand in that. */
  function ContentOf(page: seq<RawItem>): Text {
    Cleaned(Joined(page))
  }

  function ContentItems(page: seq<RawItem>): seq<TextItem> {
    MovedItems(Joined(page), ItemsOf(page))
  }

  /** On a page as read, the stored item ranges lie in the stored text, in order and apart. */
  lemma PageItemsAreOrdered(page: seq<RawItem>)
    ensures InOrder(ContentItems(page)) && InText(ContentItems(page), |ContentOf(page)|)
  {
    JoinedItemsInOrder(page);
    MovedStayInOrder(Joined(page), ItemsOf(page));
  }

  /** Each stored item spells what survives of the item it was, and has its box. */
  lemma {:induction false} PageItemsSpellTheirText(page: seq<RawItem>, k: nat)
    requires k < |ContentItems(page)|
    ensures var m, text := ContentItems(page)[k], Joined(page);
      && m.index < |page|
      && var was := ItemAt(page, m.index);
      && m == was.(charStart := m.charStart, charEnd := m.charEnd)
      && m.x0 == page[m.index].x && m.x1 - m.x0 == page[m.index].width
      && m.y0 == page[m.index].y && m.y1 - m.y0 == page[m.index].height
      && was.charEnd <= |text| && text[was.charStart..was.charEnd] == page[m.index].str
      && m.charStart < m.charEnd <= |ContentOf(page)|
      && ContentOf(page)[m.charStart..m.charEnd] == Survivors(text, was.charStart, was.charEnd)
  {
    hide Joined, Cleaned, Survivors, LineOf;
    var i := MovedItemsCome(Joined(page), ItemsOf(page), k);
    JoinSpellsItems(page, i);
    MovedItemSpellsSurvivors(Joined(page), ItemAt(page, i));
  }

  lemma {:induction false} CleanOrigin(raw: Text, k: nat, n: nat) returns (i: nat)
    requires n <= |raw| && k < Moved(raw, n)
    ensures i < n && Survives(raw, i) && Moved(raw, i) == k
    ensures k < |Cleaned(raw)| && Cleaned(raw)[k] == raw[i]
  {
    AllMoved(raw);
    hide Moved, Survives, Cleaned;
    MovedNext(raw, n - 1);
    if k < Moved(raw, n - 1) {
      i := CleanOrigin(raw, k, n - 1);
    } else {
      i := n - 1;
    }
  }

  /** A survivor in an item's range stands in that item's moved range. */
  lemma {:induction false} SurvivorStaysInItem(raw: Text, item: TextItem, p: nat)
    requires item.charStart <= p < item.charEnd <= |raw| && Survives(raw, p)
    ensures var m := MovedItem(raw, item); m.Some? && m.value.charStart <= Moved(raw, p) < m.value.charEnd
  {
    hide Cleaned, Moved, Survives;
    MovedMonotone(raw, item.charStart, p);
    MovedNext(raw, p);
    MovedMonotone(raw, p + 1, item.charEnd);
  }

  /** Every stored character but a line break lies in the item it was printed by. */
  lemma {:induction false} EveryCharacterHasItsItem(page: seq<RawItem>, k: nat) returns (m: TextItem)
    requires k < |ContentOf(page)| && ContentOf(page)[k] != NEWLINE
    ensures m in ContentItems(page) && m.charStart <= k < m.charEnd
    ensures m.index < |page| && ContentOf(page)[k] in page[m.index].str
  {
    var raw := Joined(page);
    AllMoved(raw);
    assert page[..|page|] == page;
    hide Joined, Cleaned, Moved, LineOf, Survives, MovedItems;
    var p := CleanOrigin(raw, k, |raw|);
    var i := JoinedIsItems(page, |page|, p);
    var item := ItemAt(page, i);
    JoinSpellsItems(page, i);
    assert raw[p] == raw[item.charStart..item.charEnd][p - item.charStart];
    SurvivorStaysInItem(raw, item, p);
    m := MovedItem(raw, item).value;
    MovedItemsHold(raw, ItemsOf(page), i);
  }

  // ----- The box around a range -----

  datatype Box = Box(x0: real, y0: real, x1: real, y1: real)

  /** An item counts when its range begins before the given one ends and ends after it begins. */
  predicate Touches(item: TextItem, charStart: nat, charEnd: nat) {
    item.charStart < charEnd && item.charEnd > charStart
  }

  function Touching(items: seq<TextItem>, charStart: nat, charEnd: nat): (t: seq<TextItem>)
    ensures forall m :: m in t <==> m in items && Touches(m, charStart, charEnd)
  {
    if items == [] then []
    else
      (if Touches(items[0], charStart, charEnd) then [items[0]] else []) + Touching(items[1..], charStart, charEnd)
  }

  function Lesser(a: real, b: real): real { if a <= b then a else b }
  function Greater(a: real, b: real): real { if a <= b then b else a }

  function Hull(items: seq<TextItem>): Box
    requires items != []
  {
    var i := items[0];
    if |items| == 1 then Box(i.x0, i.y0, i.x1, i.y1)
    else
      var b := Hull(items[1..]);
      Box(Lesser(i.x0, b.x0), Lesser(i.y0, b.y0), Greater(i.x1, b.x1), Greater(i.y1, b.y1))
  }

  function BoxAround(items: seq<TextItem>, charStart: nat, charEnd: nat): Option<Box> {
    var touching := Touching(items, charStart, charEnd);
    if touching == [] then None else Some(Hull(touching))
  }

  predicate Covers(box: Box, item: TextItem) {
    box.x0 <= item.x0 && box.y0 <= item.y0 && item.x1 <= box.x1 && item.y1 <= box.y1
  }

  predicate Inside(inner: Box, outer: Box) {
    outer.x0 <= inner.x0 && outer.y0 <= inner.y0 && inner.x1 <= outer.x1 && inner.y1 <= outer.y1
  }

  lemma {:induction false} HullIsSmallest(items: seq<TextItem>, other: Box)
    requires items != []
    ensures forall m :: m in items ==> Covers(Hull(items), m)
    ensures (forall m :: m in items ==> Covers(other, m)) ==> Inside(Hull(items), other)
  {
    assert items[0] in items;
    if |items| > 1 {
      HullIsSmallest(items[1..], other);
      assert items == [items[0]] + items[1..];
      assert (forall m :: m in items ==> Covers(other, m)) ==> forall m :: m in items[1..] ==> Covers(other, m);
    }
  }

  /** There is a box exactly when something touches; it covers all that does, and no more than it must. */
  lemma {:induction false} BoxIsSmallest(items: seq<TextItem>, charStart: nat, charEnd: nat, other: Box)
    ensures match BoxAround(items, charStart, charEnd)
      case None => forall m :: m in items ==> m.charStart >= charEnd || m.charEnd <= charStart
      case Some(box) =>
        && (exists m :: m in items && m.charStart < charEnd && m.charEnd > charStart)
        && (forall m :: m in items && m.charStart < charEnd && m.charEnd > charStart ==> Covers(box, m))
        && ((forall m :: m in items && m.charStart < charEnd && m.charEnd > charStart ==> Covers(other, m))
            ==> Inside(box, other))
  {
    hide Covers, Inside, Hull;
    var touching := Touching(items, charStart, charEnd);
    if touching != [] {
      HullIsSmallest(touching, other);
      assert touching[0] in touching;
    } else {
      forall m | m in items ensures !Touches(m, charStart, charEnd) {
        assert m !in touching;
      }
    }
  }
}
