/**
 * Rows of a treasury export: cells are found through the header, not by their place.
 */
module TreasuryRows {
  import opened Blanks
  import opened Positions
  import opened PublishedAmounts
  import opened RupeeMoney
  import opened Wrappers

  // ----- Columns -----

  /** The columns read, and their names as the export spells them. */
  datatype Column =
    | Dept | DemandNo | SchemeCode | ObjectCode | Budget | Expenditure
    | ReleasedFd | ReleasedDept | Reapp | SchemeEnglish | SchemeName | SchemeMarathi
    | ChargedVoted | SchemeCommitted | SourceOfFund | PlanType {

    function Name(): string {
      match this
      case Dept => "DEPT"
      case DemandNo => "DEMAND_NO"
      case SchemeCode => "SCHEME_CODE"
      case ObjectCode => "OBJECT_CODE"
      case Budget => "BUDGET"
      case Expenditure => "EXPENDITURE"
      case ReleasedFd => "RELEASED FD"
      case ReleasedDept => "RELEASED Dept"
      case Reapp => "REAPP"
      case SchemeEnglish => "BUDBOOK_SCHEMENM_ENGLISH"
      case SchemeName => "SCHEME_NM"
      case SchemeMarathi => "BUDBOOK_SCHEMENM_MARATHI"
      case ChargedVoted => "CHARGED_VOTED"
      case SchemeCommitted => "SCHEME_COMITTED"
      case SourceOfFund => "Source of fund"
      case PlanType => "Plan Type"
    }
  }

  const REQUIRED: seq<Column> := [Dept, DemandNo, SchemeCode, ObjectCode, Budget, Expenditure]

  // ----- Cells by name -----

  /** Header spelling drifts between years: stops, spaces and case are left out of a name. */
  function NormaliseName(name: string): string {
    if name == "" then ""
    else (if name[0] == '.' || IsBlank(name[0]) then "" else Lower([name[0]])) + NormaliseName(name[1..])
  }

  /** Where a column stands, or the header's width where it is missing. */
  function IndexOf(header: seq<string>, column: string): (i: nat)
    ensures i <= |header|
    ensures i < |header| ==> NormaliseName(header[i]) == NormaliseName(column)
    ensures forall j :: 0 <= j < i ==> NormaliseName(header[j]) != NormaliseName(column)
  {
    if header == [] || NormaliseName(header[0]) == NormaliseName(column) then 0
    else
      var i := IndexOf(header[1..], column);
      assert forall j :: 0 < j < 1 + i ==> header[j] == header[1..][j - 1];
      1 + i
  }

  function At(header: seq<string>, column: Column): nat {
    IndexOf(header, column.Name())
  }

  function Cell(header: seq<string>, row: seq<string>, column: Column): Option<string> {
    var i := At(header, column);
    if i == |header| || i >= |row| then None else Some(row[i])
  }

  // ----- Rows -----

  const ABSENT_TEXT: set<string> := {"", "-", "--", "---", "null", "NULL", "NA", "N/A"}

  function Collapse(s: string): string {
    if s == "" then ""
    else if !IsBlank(s[0]) then [s[0]] + Collapse(s[1..])
    else if |s| > 1 && IsBlank(s[1]) then Collapse(s[1..])
    else " " + Collapse(s[1..])
  }

  /** The text of a cell; none where the cell is missing, blank or one of the absent texts. */
  function Optional(cell: Option<string>): Option<string> {
    var value := Trim(Collapse(if cell.Some? then cell.value else ""));
    if value in ABSENT_TEXT then None else Some(value)
  }

  /** Rupees as a decimal string, none where none are published; a figure that cannot be read refuses the export. */
  function ToInr(cell: Option<string>): Result<Option<string>, Refusal> {
    match ThousandsToPaise(if cell.Some? then cell.value else "")
    case Err(e) => Err(e)
    case Ok(None) => Ok(None)
    case Ok(Some(paise)) => Ok(Some(ToDecimalString(paise)))
  }

  datatype Coordinates = Coordinates(dept: string, demand: string, scheme: string, object_: string)

  datatype Amounts = Amounts(
    budgeted: Option<string>,
    releasedFd: Option<string>,
    released: Option<string>,
    utilized: Option<string>,
    reappropriated: Option<string>)

  datatype Row = Row(
    at: Coordinates,
    schemeNameEn: Option<string>,
    schemeNameLocal: Option<string>,
    chargedVoted: Option<string>,
    schemeCommitted: Option<string>,
    sourceOfFund: Option<string>,
    planType: Option<string>,
    amounts: Amounts)

  function CoordinatesOf(header: seq<string>, row: seq<string>): Option<Coordinates> {
    var dept, scheme := Optional(Cell(header, row, Dept)), Optional(Cell(header, row, SchemeCode));
    var object_, demand := Optional(Cell(header, row, ObjectCode)), Optional(Cell(header, row, DemandNo));
    if dept.None? || scheme.None? || object_.None? || demand.None? then None
    else Some(Coordinates(dept.value, demand.value, scheme.value, object_.value))
  }

  /** The five amounts, or the first refusal among them. */
  function AmountsOf(header: seq<string>, row: seq<string>): Result<Amounts, Refusal> {
    var a, f := ToInr(Cell(header, row, Budget)), ToInr(Cell(header, row, ReleasedFd));
    var r, u := ToInr(Cell(header, row, ReleasedDept)), ToInr(Cell(header, row, Expenditure));
    var p := ToInr(Cell(header, row, Reapp));
    if a.Err? then Err(a.error)
    else if f.Err? then Err(f.error)
    else if r.Err? then Err(r.error)
    else if u.Err? then Err(u.error)
    else if p.Err? then Err(p.error)
    else Ok(Amounts(a.value, f.value, r.value, u.value, p.value))
  }

  /** None for a row with no chart-of-accounts coordinates: skipped rather than guessed at. */
  function ToRow(header: seq<string>, row: seq<string>): Result<Option<Row>, Refusal> {
    var at := CoordinatesOf(header, row);
    if at.None? then Ok(None)
    else
      match AmountsOf(header, row)
      case Err(e) => Err(e)
      case Ok(amounts) =>
        var english := Optional(Cell(header, row, SchemeEnglish));
        Ok(Some(Row(
          at.value,
          if english.Some? then english else Optional(Cell(header, row, SchemeName)),
          Optional(Cell(header, row, SchemeMarathi)),
          Optional(Cell(header, row, ChargedVoted)),
          Optional(Cell(header, row, SchemeCommitted)),
          Optional(Cell(header, row, SourceOfFund)),
          Optional(Cell(header, row, PlanType)),
          amounts)))
  }

  // ----- The export -----

  datatype ParseError = MissingColumns | Unreadable(refusal: Refusal) | NoRows

  /** The columns stand within the first `width` of the header. */
  predicate StandWithin(header: seq<string>, columns: seq<Column>, width: nat) {
    forall i :: 0 <= i < |columns| ==> At(header, columns[i]) < width
  }

  predicate HasRequired(header: seq<string>) {
    StandWithin(header, REQUIRED, |header|)
  }

  /** Every required column has a cell: older exports leave trailing columns out. */
  predicate IsWideEnough(header: seq<string>, row: seq<string>) {
    StandWithin(header, REQUIRED, |row|)
  }

  function RowOf(header: seq<string>, row: seq<string>): Result<Option<Row>, Refusal> {
    if IsWideEnough(header, row) then ToRow(header, row) else Ok(None)
  }

  function RowsOf(header: seq<string>, rows: seq<seq<string>>): Result<seq<Row>, Refusal> {
    if rows == [] then Ok([])
    else
      var n := |rows| - 1;
      match RowsOf(header, rows[..n])
      case Err(e) => Err(e)
      case Ok(front) =>
        match RowOf(header, rows[n])
        case Err(e) => Err(e)
        case Ok(None) => Ok(front)
        case Ok(Some(row)) => Ok(front + [row])
  }

  function Export(header: seq<string>, rows: seq<seq<string>>): Result<seq<Row>, ParseError> {
    if !HasRequired(header) then Err(MissingColumns)
    else
      match RowsOf(header, rows)
      case Err(e) => Err(Unreadable(e))
      case Ok(parsed) => if parsed == [] then Err(NoRows) else Ok(parsed)
  }

  /** The narrowest row that can be read reaches the last of the required columns. */
  method LastIndex(header: seq<string>, columns: seq<Column>) returns (last: nat)
    requires columns != []
    ensures forall width: nat :: width > last <==> StandWithin(header, columns, width)
  {
    hide At;
    last := At(header, columns[0]);
    ghost var widest := 0;
    for i := 1 to |columns|
      invariant 0 <= widest < i && last == At(header, columns[widest])
      invariant forall j :: 0 <= j < i ==> At(header, columns[j]) <= last
    {
      var index := At(header, columns[i]);
      if index > last {
        last, widest := index, i;
      }
    }
  }

  method ParseExport(header: seq<string>, rows: seq<seq<string>>) returns (result: Result<seq<Row>, ParseError>)
    ensures result == Export(header, rows)
  {
    hide ToRow, StandWithin;
    if !HasRequired(header) {
      return Err(MissingColumns);
    }
    var lastRequired := LastIndex(header, REQUIRED);
    hide HasRequired;
    var parsed: seq<Row> := [];
    for n := 0 to |rows|
      invariant RowsOf(header, rows[..n]) == Ok(parsed)
    {
      assert rows[..n + 1][..n] == rows[..n];
      if |rows[n]| > lastRequired {
        var row := ToRow(header, rows[n]);
        if row.Err? {
          RefusalStands(header, rows, n + 1);
          return Err(Unreadable(row.error));
        }
        if row.value.Some? {
          parsed := parsed + [row.value.value];
        }
      }
    }
    assert rows[..|rows|] == rows;
    result := if parsed == [] then Err(NoRows) else Ok(parsed);
  }

  lemma {:induction false} RefusalStands(header: seq<string>, rows: seq<seq<string>>, n: nat)
    requires n <= |rows| && RowsOf(header, rows[..n]).Err?
    ensures RowsOf(header, rows) == RowsOf(header, rows[..n])
  {
    hide RowOf;
    if n == |rows| {
      assert rows[..n] == rows;
    } else {
      var front := rows[..|rows| - 1];
      assert front[..n] == rows[..n];
      RefusalStands(header, front, n);
    }
  }

  // ----- Columns may stand in any order -----

  /** `order` lists every column of a header of this width once. */
  ghost predicate IsOrder(order: seq<nat>, width: nat) {
    && |order| == width
    && (forall i :: 0 <= i < width ==> order[i] < width)
    && (forall i, j :: 0 <= i < j < width ==> order[i] != order[j])
    && (forall k :: 0 <= k < width ==> k in order)
  }

  function Moved(cells: seq<string>, order: seq<nat>): (r: seq<string>)
    requires forall i :: 0 <= i < |order| ==> order[i] < |cells|
    ensures |r| == |order|
  {
    seq(|order|, i requires 0 <= i < |order| => cells[order[i]])
  }

  ghost predicate NamesDiffer(header: seq<string>) {
    forall i, j :: 0 <= i < j < |header| ==> NormaliseName(header[i]) != NormaliseName(header[j])
  }

  lemma {:induction false} ColumnMoves(header: seq<string>, order: seq<nat>, name: string)
    requires IsOrder(order, |header|) && NamesDiffer(header)
    ensures var i, j := IndexOf(header, name), IndexOf(Moved(header, order), name);
      if i == |header| then j == |header| else j < |header| && order[j] == i
  {
    hide NormaliseName;
    var moved := Moved(header, order);
    var i, j := IndexOf(header, name), IndexOf(moved, name);
    if i < |header| {
      assert i in order;
      var k :| 0 <= k < |order| && order[k] == i;
      assert moved[k] == header[i];
    }
    if j < |moved| {
      assert moved[j] == header[order[j]];
    }
  }

  /** A cell is found by its column's name wherever the column stands. */
  lemma {:induction false} CellMovesWithItsName(header: seq<string>, row: seq<string>, order: seq<nat>, column: Column)
    requires IsOrder(order, |header|) && |row| == |header| && NamesDiffer(header)
    ensures Cell(Moved(header, order), Moved(row, order), column) == Cell(header, row, column)
  {
    ColumnMoves(header, order, column.Name());
  }

  lemma {:induction false} RowMoves(header: seq<string>, row: seq<string>, order: seq<nat>)
    requires IsOrder(order, |header|) && |row| == |header| && NamesDiffer(header)
    ensures ToRow(Moved(header, order), Moved(row, order)) == ToRow(header, row)
  {
    hide Cell, Optional, ToInr, Moved, Collapse, Trim, ThousandsToPaise;
    forall column: Column ensures Cell(Moved(header, order), Moved(row, order), column) == Cell(header, row, column) {
      CellMovesWithItsName(header, row, order, column);
    }
    hide IsOrder, NamesDiffer;
  }

  lemma {:induction false} WidthMoves(header: seq<string>, order: seq<nat>)
    requires IsOrder(order, |header|) && NamesDiffer(header)
    ensures HasRequired(Moved(header, order)) <==> HasRequired(header)
  {
    forall c: Column
      ensures At(Moved(header, order), c) < |header| <==> At(header, c) < |header|
    {
      ColumnMoves(header, order, c.Name());
    }
    hide At, Moved;
  }

  lemma FullWidthIsWide(header: seq<string>, row: seq<string>)
    requires HasRequired(header) && |row| == |header|
    ensures IsWideEnough(header, row)
  {
  }

  function AllMoved(rows: seq<seq<string>>, order: seq<nat>): (r: seq<seq<string>>)
    requires forall n, i :: 0 <= n < |rows| && 0 <= i < |order| ==> order[i] < |rows[n]|
    ensures |r| == |rows|
  {
    seq(|rows|, n requires 0 <= n < |rows| => Moved(rows[n], order))
  }

  lemma {:induction false} RowsMove(header: seq<string>, rows: seq<seq<string>>, order: seq<nat>)
    requires IsOrder(order, |header|) && NamesDiffer(header) && HasRequired(header)
    requires forall n :: 0 <= n < |rows| ==> |rows[n]| == |header|
    ensures RowsOf(Moved(header, order), AllMoved(rows, order)) == RowsOf(header, rows)
  {
    hide ToRow, HasRequired, IsWideEnough, NamesDiffer;
    if rows != [] {
      var n := |rows| - 1;
      RowsMove(header, rows[..n], order);
      assert AllMoved(rows, order)[..n] == AllMoved(rows[..n], order);
      RowMoves(header, rows[n], order);
      WidthMoves(header, order);
      FullWidthIsWide(header, rows[n]);
      FullWidthIsWide(Moved(header, order), Moved(rows[n], order));
    }
  }

  /**
   * The columns of an export may stand in any order: where the header's names differ and every
   * row is full, the same rows are read, or the same refusal made.
   */
  lemma {:induction false} ColumnsMayMove(header: seq<string>, rows: seq<seq<string>>, order: seq<nat>)
    requires IsOrder(order, |header|) && NamesDiffer(header)
    requires forall n :: 0 <= n < |rows| ==> |rows[n]| == |header|
    ensures Export(Moved(header, order), AllMoved(rows, order)) == Export(header, rows)
  {
    hide RowsOf, HasRequired, NamesDiffer;
    WidthMoves(header, order);
    if HasRequired(header) {
      RowsMove(header, rows, order);
    }
  }

  /** A row too narrow for a required column, or without a coordinate, contributes nothing anywhere. */
  lemma {:induction false} SilentRowAddsNothing(header: seq<string>, before: seq<seq<string>>, row: seq<string>, after: seq<seq<string>>)
    requires !IsWideEnough(header, row) || CoordinatesOf(header, row).None?
    ensures RowsOf(header, before + [row] + after) == RowsOf(header, before + after)
  {
    hide Optional, Cell, AmountsOf, IsWideEnough, CoordinatesOf;
    assert RowOf(header, row) == Ok(None);
    hide RowOf;
    if after == [] {
      assert before + [row] + after == before + [row] && before + after == before;
      assert (before + [row])[..|before|] == before;
    } else {
      var n := |after| - 1;
      SilentRowAddsNothing(header, before, row, after[..n]);
      var with, without := before + [row] + after, before + after;
      assert with[..|with| - 1] == before + [row] + after[..n];
      assert without[..|without| - 1] == before + after[..n];
    }
  }

  // ----- Which rows are read -----

  /** The characters of a column's name that tell it apart. */
  ghost function Telling(name: string): set<nat> {
    set p: nat | p < |name| && name[p] != '.' && !IsBlank(name[p])
  }

  function SmallLetter(c: char): char {
    if 'A' <= c <= 'Z' then (c as int + 32) as char else c
  }

  lemma {:induction false} NormalisePush(name: string, c: char)
    ensures NormaliseName(name + [c]) == NormaliseName(name) + if c == '.' || IsBlank(c) then "" else [SmallLetter(c)]
  {
    hide IsBlank;
    if name == "" {
      assert name + [c] == [c] && [c][1..] == "";
      assert Lower([c]) == [SmallLetter(c)];
    } else {
      assert (name + [c])[1..] == name[1..] + [c];
      NormalisePush(name[1..], c);
    }
  }

  /** A name is normalised to its characters but stops and white space, in order and in lower case. */
  lemma {:induction false} NormalisedAre(name: string) returns (at: seq<nat>)
    ensures Lists(at, Telling(name)) && |NormaliseName(name)| == |at|
    ensures forall k :: 0 <= k < |at| ==> at[k] < |name| && NormaliseName(name)[k] == SmallLetter(name[at[k]])
  {
    hide IsBlank;
    at := [];
    if name != "" {
      var n := |name| - 1;
      at := NormalisedAre(name[..n]);
      NormalisePush(name[..n], name[n]);
      assert name == name[..n] + [name[n]];
      hide NormaliseName;
      var s := Telling(name[..n]);
      if name[n] == '.' || IsBlank(name[n]) {
        assert Telling(name) == s;
      } else {
        ListsPush(at, s, n);
        at := at + [n];
        assert Telling(name) == s + {n};
      }
    }
  }

  /** A row that is read: wide enough for every required column, and with all four coordinates. */
  ghost predicate IsRead(header: seq<string>, row: seq<string>) {
    && (forall c :: c in {Dept, DemandNo, SchemeCode, ObjectCode, Budget, Expenditure} ==> At(header, c) < |row|)
    && (forall c :: c in {Dept, DemandNo, SchemeCode, ObjectCode} ==> Optional(Cell(header, row, c)).Some?)
  }

  ghost function WhichAreRead(header: seq<string>, rows: seq<seq<string>>): set<nat> {
    set n: nat | n < |rows| && IsRead(header, rows[n])
  }

  lemma WideEnoughMeans(header: seq<string>, row: seq<string>)
    ensures IsWideEnough(header, row) <==>
      forall c :: c in {Dept, DemandNo, SchemeCode, ObjectCode, Budget, Expenditure} ==> At(header, c) < |row|
  {
    assert REQUIRED[0] == Dept && REQUIRED[1] == DemandNo && REQUIRED[2] == SchemeCode;
    assert REQUIRED[3] == ObjectCode && REQUIRED[4] == Budget && REQUIRED[5] == Expenditure;
    hide At;
  }

  lemma HasCoordinates(header: seq<string>, row: seq<string>)
    ensures CoordinatesOf(header, row).Some? <==>
      forall c :: c in {Dept, DemandNo, SchemeCode, ObjectCode} ==> Optional(Cell(header, row, c)).Some?
  {
    hide Cell, Optional;
  }

  lemma RowIsRead(header: seq<string>, row: seq<string>)
    ensures RowOf(header, row) ==
      if !IsRead(header, row) then Ok(None)
      else if AmountsOf(header, row).Err? then Err(AmountsOf(header, row).error)
      else ToRow(header, row)
    ensures IsRead(header, row) && AmountsOf(header, row).Ok? ==> ToRow(header, row).Ok? && ToRow(header, row).value.Some?
  {
    WideEnoughMeans(header, row);
    HasCoordinates(header, row);
    assert IsRead(header, row) <==> IsWideEnough(header, row) && CoordinatesOf(header, row).Some?;
    hide IsRead, IsWideEnough, CoordinatesOf, Cell, Optional, AmountsOf;
  }

  /** The first row read whose amounts are refused. */
  ghost predicate IsFirstRefused(header: seq<string>, rows: seq<seq<string>>, n: nat) {
    && n in WhichAreRead(header, rows) && AmountsOf(header, rows[n]).Err?
    && forall m :: m in WhichAreRead(header, rows) && m < n ==> AmountsOf(header, rows[m]).Ok?
  }

  ghost predicate AreRowsAt(header: seq<string>, rows: seq<seq<string>>, parsed: seq<Row>, at: seq<nat>) {
    && Lists(at, WhichAreRead(header, rows)) && |parsed| == |at|
    && (forall k :: 0 <= k < |at| ==> at[k] < |rows| && ToRow(header, rows[at[k]]) == Ok(Some(parsed[k])))
    && (forall n :: n in WhichAreRead(header, rows) ==> AmountsOf(header, rows[n]).Ok?)
  }

  lemma WhichPush(header: seq<string>, rows: seq<seq<string>>, row: seq<string>)
    ensures WhichAreRead(header, rows + [row]) ==
      WhichAreRead(header, rows) + if IsRead(header, row) then {|rows|} else {}
    ensures forall n :: n in WhichAreRead(header, rows) ==> n < |rows|
  {
    hide IsRead;
  }

  lemma OneMoreRow(header: seq<string>, rows: seq<seq<string>>, row: seq<string>, parsed: seq<Row>, at: seq<nat>)
    returns (next: seq<nat>)
    requires AreRowsAt(header, rows, parsed, at) && RowOf(header, row).Ok?
    ensures AreRowsAt(header, rows + [row],
      if RowOf(header, row).value.Some? then parsed + [RowOf(header, row).value.value] else parsed, next)
  {
    RowIsRead(header, row);
    WhichPush(header, rows, row);
    hide ToRow, AmountsOf, RowOf, IsRead, WhichAreRead;
    next := at;
    assert (rows + [row])[|rows|] == row;
    assert forall n :: 0 <= n < |rows| ==> (rows + [row])[n] == rows[n];
    if IsRead(header, row) {
      ListsPush(at, WhichAreRead(header, rows), |rows|);
      next := at + [|rows|];
    } else {
      assert WhichAreRead(header, rows) + {} == WhichAreRead(header, rows);
    }
    hide Lists;
  }

  lemma {:induction false} RowsAre(header: seq<string>, rows: seq<seq<string>>) returns (at: seq<nat>)
    ensures match RowsOf(header, rows)
      case Ok(parsed) => AreRowsAt(header, rows, parsed, at)
      case Err(e) => exists n :: 0 <= n < |rows| && IsFirstRefused(header, rows, n) && AmountsOf(header, rows[n]) == Err(e)
  {
    hide ToRow, AmountsOf, RowOf, IsRead, AreRowsAt, IsFirstRefused;
    at := [];
    if rows == [] {
      NoRowsYet(header);
    } else {
      var front, last := rows[..|rows| - 1], rows[|rows| - 1];
      assert rows == front + [last];
      at := RowsAre(header, front);
      var before := RowsOf(header, front);
      if before.Err? {
        var n: nat :| n < |front| && IsFirstRefused(header, front, n) && AmountsOf(header, front[n]) == Err(before.error);
        StillFirstRefused(header, front, last, n);
      } else if RowOf(header, last).Ok? {
        at := OneMoreRow(header, front, last, before.value, at);
      } else {
        NowRefused(header, front, last, before.value, at);
      }
    }
  }

  lemma NoRowsYet(header: seq<string>)
    ensures AreRowsAt(header, [], [], [])
  {
  }

  lemma StillFirstRefused(header: seq<string>, rows: seq<seq<string>>, row: seq<string>, n: nat)
    requires IsFirstRefused(header, rows, n)
    ensures n < |rows| && IsFirstRefused(header, rows + [row], n) && (rows + [row])[n] == rows[n]
  {
    WhichPush(header, rows, row);
    hide WhichAreRead, AmountsOf;
  }

  lemma NowRefused(header: seq<string>, rows: seq<seq<string>>, row: seq<string>, parsed: seq<Row>, at: seq<nat>)
    requires AreRowsAt(header, rows, parsed, at) && RowOf(header, row).Err?
    ensures IsFirstRefused(header, rows + [row], |rows|) && AmountsOf(header, row) == Err(RowOf(header, row).error)
  {
    RowIsRead(header, row);
    WhichPush(header, rows, row);
    hide WhichAreRead, AmountsOf, RowOf, IsRead, ToRow;
  }

  /**
   * An export, row by row. It is refused where a required column is missing, where an amount of a
   * row that is read is not exact, and where no row is read; otherwise it gives one row for each
   * that is read, in order.
   */
  lemma {:induction false} ExportIsExact(header: seq<string>, rows: seq<seq<string>>) returns (at: seq<nat>)
    ensures var lacks := exists c :: c in {Dept, DemandNo, SchemeCode, ObjectCode, Budget, Expenditure} && At(header, c) == |header|;
      match Export(header, rows)
      case Err(MissingColumns) => lacks
      case Err(Unreadable(e)) =>
        !lacks && exists n :: 0 <= n < |rows| && IsFirstRefused(header, rows, n) && AmountsOf(header, rows[n]) == Err(e)
      case Err(NoRows) => !lacks && WhichAreRead(header, rows) == {}
      case Ok(parsed) => !lacks && parsed != [] && AreRowsAt(header, rows, parsed, at)
  {
    at := RowsAre(header, rows);
    RequiredAre(header);
    hide RowsOf, AmountsOf, IsFirstRefused, WhichAreRead, HasRequired;
    if AreRowsAt(header, rows, [], at) {
      assert at == [];
      assert forall n :: n !in WhichAreRead(header, rows);
    }
  }

  lemma RequiredAre(header: seq<string>)
    ensures !HasRequired(header) <==>
      exists c :: c in {Dept, DemandNo, SchemeCode, ObjectCode, Budget, Expenditure} && At(header, c) == |header|
  {
    assert REQUIRED[0] == Dept && REQUIRED[1] == DemandNo && REQUIRED[2] == SchemeCode;
    assert REQUIRED[3] == ObjectCode && REQUIRED[4] == Budget && REQUIRED[5] == Expenditure;
  }

  /** A cell that is not there states nothing: a missing column, or a row that stops short of it. */
  lemma {:induction false} MissingCellsStateNothing(header: seq<string>, row: seq<string>, c: Column)
    requires ToRow(header, row).Ok? && ToRow(header, row).value.Some?
    requires At(header, c) == |header| || At(header, c) >= |row|
    requires !c.SchemeEnglish? && !c.SchemeName?
    ensures !c.Dept? && !c.DemandNo? && !c.SchemeCode? && !c.ObjectCode?
    ensures var r := ToRow(header, row).value.value;
      if IsAmountColumn(c) then AmountUnder(r.amounts, c) == None else TextUnder(r, c) == None
  {
    NothingIsAbsent();
    NoFigureIsNone();
    hide Optional, ToInr, At;
  }

  lemma NoFigureIsNone()
    ensures ToInr(None) == Ok(None)
  {
    assert Trim("") == "" && Erase("") == "";
  }

  // ----- Texts -----

  /** The words of a text: what stands between its white space. */
  function Words(s: string): (words: seq<string>)
    ensures s != "" && !IsBlank(s[0]) ==> words != []
  {
    if s == "" then []
    else if IsBlank(s[0]) then Words(s[1..])
    else if |s| == 1 || IsBlank(s[1]) then [[s[0]]] + Words(s[1..])
    else
      var rest := Words(s[1..]);
      [[s[0]] + rest[0]] + rest[1..]
  }

  function Joined(words: seq<string>): string {
    if words == [] then "" else if |words| == 1 then words[0] else words[0] + " " + Joined(words[1..])
  }

  /** Collapsing leaves the words a space apart, and perhaps a space at either end. */
  predicate CollapsesTo(s: string, after: string) {
    && (after == "" || after == " ")
    && Collapse(s) == (if s != "" && IsBlank(s[0]) && Words(s) != [] then " " else "") + Joined(Words(s)) + after
  }

  lemma {:induction false} CollapseIsWords(s: string) returns (after: string)
    ensures CollapsesTo(s, after)
  {
    if s == "" {
      after := "";
    } else {
      hide CollapsesTo, IsBlank;
      after := CollapseIsWords(s[1..]);
      if IsBlank(s[0]) {
        after := AfterBlank(s, after);
      } else if |s| == 1 || IsBlank(s[1]) {
        OneLetterWord(s, after);
      } else {
        LongerWord(s, after);
      }
    }
  }

  lemma AfterBlank(s: string, was: string) returns (after: string)
    requires s != "" && IsBlank(s[0]) && CollapsesTo(s[1..], was)
    ensures CollapsesTo(s, after)
  {
    hide IsBlank, Collapse, Words, Joined;
    BlankStep(s);
    after := was;
    if |s| == 1 {
      NothingJoined();
      after := " ";
      assert "" + "" + " " == " ";
    } else if !IsBlank(s[1]) {
      assert s[1..][0] == s[1];
      assert "" + Joined(Words(s)) == Joined(Words(s));
      assert " " + (Joined(Words(s)) + was) == " " + Joined(Words(s)) + was;
    } else {
      assert s[1..][0] == s[1];
      assert "" + Collapse(s[1..]) == Collapse(s[1..]);
    }
  }

  lemma BlankStep(s: string)
    requires s != "" && IsBlank(s[0])
    ensures Words(s) == Words(s[1..])
    ensures Collapse(s) == (if |s| > 1 && IsBlank(s[1]) then "" else " ") + Collapse(s[1..])
    ensures |s| == 1 ==> Words(s) == [] && Collapse(s) == " "
    ensures |s| > 1 && !IsBlank(s[1]) ==> Words(s) != []
  {
    hide IsBlank;
    if |s| > 1 {
      assert s[1..][0] == s[1];
    }
  }

  lemma InkStep(s: string)
    requires s != "" && !IsBlank(s[0])
    ensures Collapse(s) == [s[0]] + Collapse(s[1..])
    ensures |s| == 1 || IsBlank(s[1]) ==> Words(s) == [[s[0]]] + Words(s[1..])
    ensures |s| > 1 && !IsBlank(s[1]) ==>
      Words(s[1..]) != [] && Words(s) == [[s[0]] + Words(s[1..])[0]] + Words(s[1..])[1..]
    ensures |s| == 1 ==> Words(s[1..]) == []
  {
    hide IsBlank;
  }

  lemma JoinedFirst(word: string, words: seq<string>)
    ensures Joined([word] + words) == word + if words == [] then "" else " " + Joined(words)
  {
    assert ([word] + words)[1..] == words;
  }

  lemma NothingJoined()
    ensures Joined([]) == ""
  {
  }

  lemma Regrouped(a: string, b: string, c: string, d: string)
    ensures a + (b + c + d) == a + b + c + d
  {
  }

  lemma OneLetterWord(s: string, after: string)
    requires s != "" && !IsBlank(s[0]) && (|s| == 1 || IsBlank(s[1])) && CollapsesTo(s[1..], after)
    ensures CollapsesTo(s, after)
  {
    hide IsBlank, Collapse, Words, Joined;
    InkStep(s);
    var words := Words(s[1..]);
    JoinedFirst([s[0]], words);
    NothingJoined();
    var space := if words == [] then "" else " ";
    Regrouped([s[0]], space, Joined(words), after);
    assert Collapse(s[1..]) == space + Joined(words) + after;
    assert words == [] ==> [s[0]] + "" + "" + after == [s[0]] + "" + after;
    assert words != [] ==> [s[0]] + " " + Joined(words) == [s[0]] + (" " + Joined(words));
    assert "" + Joined(Words(s)) == Joined(Words(s));
  }

  lemma LongerWord(s: string, after: string)
    requires |s| > 1 && !IsBlank(s[0]) && !IsBlank(s[1]) && CollapsesTo(s[1..], after)
    ensures CollapsesTo(s, after)
  {
    hide IsBlank, Collapse, Words, Joined;
    InkStep(s);
    var rest := Words(s[1..]);
    assert s[1..][0] == s[1];
    JoinedFirst([s[0]] + rest[0], rest[1..]);
    JoinedFirst(rest[0], rest[1..]);
    assert rest == [rest[0]] + rest[1..];
    var tail := if rest[1..] == [] then "" else " " + Joined(rest[1..]);
    assert Collapse(s[1..]) == rest[0] + tail + after by {
      assert "" + Joined(rest) == Joined(rest);
    }
    Regrouped([s[0]], rest[0], tail, after);
    assert "" + Joined(Words(s)) == Joined(Words(s));
  }

  predicate AreWords(words: seq<string>) {
    forall i, k :: 0 <= i < |words| && 0 <= k < |words[i]| ==> words[i] != "" && !IsBlank(words[i][k])
  }

  lemma {:induction false} WordsAreInk(s: string)
    ensures AreWords(Words(s)) && forall i :: 0 <= i < |Words(s)| ==> Words(s)[i] != ""
  {
    hide IsBlank;
    if s != "" {
      WordsAreInk(s[1..]);
    }
  }

  lemma {:induction false} JoinedEnds(words: seq<string>)
    requires words != [] && AreWords(words) && forall i :: 0 <= i < |words| ==> words[i] != ""
    ensures var s := Joined(words); s != "" && !IsBlank(s[0]) && !IsBlank(s[|s| - 1])
  {
    hide IsBlank;
    assert words[0] != "" && !IsBlank(words[0][0]);
    if |words| > 1 {
      JoinedEnds(words[1..]);
    }
  }

  /** A cleaned text is its words, a space apart. */
  lemma {:induction false} CleanIsWords(s: string)
    ensures Trim(Collapse(s)) == Joined(Words(s))
  {
    var after := CollapseIsWords(s);
    var before := if s != "" && IsBlank(s[0]) && Words(s) != [] then " " else "";
    assert IsBlank(' ');
    hide IsBlank, Collapse;
    TrimIgnoresBlanks(before, Joined(Words(s)), after);
    WordsAreInk(s);
    if Words(s) != [] {
      JoinedEnds(Words(s));
    }
  }

  /** A text as a report means it: none where it is blank, a dash, or a word for nothing. */
  function TextOf(s: string): Option<string> {
    var text := Joined(Words(s));
    if text in {"", "-", "--", "---", "null", "NULL", "NA", "N/A"} then None else Some(text)
  }

  predicate IsTextColumn(c: Column) {
    !IsAmountColumn(c)
  }

  /** What a row states under each text column; the English name is the one of two columns that has it. */
  function TextUnder(r: Row, c: Column): Option<string>
    requires IsTextColumn(c)
  {
    match c
    case Dept => Some(r.at.dept)
    case DemandNo => Some(r.at.demand)
    case SchemeCode => Some(r.at.scheme)
    case ObjectCode => Some(r.at.object_)
    case SchemeEnglish => r.schemeNameEn
    case SchemeName => r.schemeNameEn
    case SchemeMarathi => r.schemeNameLocal
    case ChargedVoted => r.chargedVoted
    case SchemeCommitted => r.schemeCommitted
    case SourceOfFund => r.sourceOfFund
    case PlanType => r.planType
  }

  predicate HasNoEnglishName(header: seq<string>, row: seq<string>) {
    forall j :: 0 <= j < |header| && j < |row| && NormaliseName(header[j]) == NormaliseName(SchemeEnglish.Name()) ==>
      TextOf(row[j]).None?
  }

  lemma OptionalIsTextOf(s: string)
    ensures Optional(Some(s)) == TextOf(s)
  {
    CleanIsWords(s);
    hide Trim, Collapse, Words, Joined;
  }

  /**
   * Every coordinate and every name of a row is its own column's cell, its words a space apart; a
   * coordinate is never absent. The second column of English names speaks only where the first
   * has none.
   */
  lemma {:induction false} TextsAreTheirCells(header: seq<string>, row: seq<string>, c: Column, i: nat)
    requires NamesDiffer(header) && i < |header| && i < |row|
    requires IsTextColumn(c) && NormaliseName(header[i]) == NormaliseName(c.Name())
    requires ToRow(header, row).Ok? && ToRow(header, row).value.Some?
    requires c == SchemeEnglish ==> TextOf(row[i]).Some?
    requires c == SchemeName ==> HasNoEnglishName(header, row)
    ensures TextUnder(ToRow(header, row).value.value, c) == TextOf(row[i])
  {
    CellStands(header, row, c, i);
    OptionalIsTextOf(row[i]);
    RowTexts(header, row, c);
    hide TextOf, ToRow, NamesDiffer, TextUnder, Optional;
    if c == SchemeName {
      EnglishIsAbsent(header, row);
    }
    hide HasNoEnglishName, NormaliseName, IsTextColumn, Cell;
  }

  lemma EnglishIsAbsent(header: seq<string>, row: seq<string>)
    requires HasNoEnglishName(header, row)
    ensures Optional(Cell(header, row, SchemeEnglish)).None?
  {
    hide TextOf, NormaliseName, Trim, Collapse;
    var j := At(header, SchemeEnglish);
    if j < |header| && j < |row| {
      OptionalIsTextOf(row[j]);
    } else {
      NothingIsAbsent();
    }
    hide Optional;
  }

  lemma NothingIsAbsent()
    ensures Optional(None) == None
  {
  }

  lemma RowTexts(header: seq<string>, row: seq<string>, c: Column)
    requires IsTextColumn(c) && ToRow(header, row).Ok? && ToRow(header, row).value.Some?
    ensures var english := Optional(Cell(header, row, SchemeEnglish));
      TextUnder(ToRow(header, row).value.value, c) ==
      if (c == SchemeEnglish || c == SchemeName) && english.Some? then english
      else if c == SchemeEnglish then Optional(Cell(header, row, SchemeName))
      else Optional(Cell(header, row, c))
  {
    hide Optional, Cell, AmountsOf;
  }

  predicate IsAmountColumn(c: Column) {
    c.Budget? || c.ReleasedFd? || c.ReleasedDept? || c.Expenditure? || c.Reapp?
  }

  /** What a row states under each of the five amount columns. */
  function AmountUnder(a: Amounts, c: Column): Option<string>
    requires IsAmountColumn(c)
  {
    match c
    case Budget => a.budgeted
    case ReleasedFd => a.releasedFd
    case ReleasedDept => a.released
    case Expenditure => a.utilized
    case Reapp => a.reappropriated
  }

  /**
   * Every amount of a row is its own column's cell: absent where the cell states none, and
   * otherwise rupees that read back as exactly the cell's thousands, to the paisa.
   */
  lemma {:induction false} AmountsAreTheirCells(header: seq<string>, row: seq<string>, c: Column, i: nat)
    requires NamesDiffer(header) && i < |header| && i < |row|
    requires IsAmountColumn(c) && NormaliseName(header[i]) == NormaliseName(c.Name())
    requires ToRow(header, row).Ok? && ToRow(header, row).value.Some?
    ensures var stated := AmountUnder(ToRow(header, row).value.value.amounts, c);
      match ThousandsToPaise(row[i])
      case Err(_) => false
      case Ok(None) => stated == None
      case Ok(Some(paise)) => stated.Some? && FromDecimalString(stated.value) == Some(paise)
  {
    hide ThousandsToPaise, ToDecimalString, FromDecimalString, Optional, Cell, AmountUnder, CoordinatesOf;
    CellStands(header, row, c, i);
    AmountIsRead(header, row, c);
    hide AmountsOf;
    var thousands := ThousandsToPaise(row[i]);
    if thousands.Ok? && thousands.value.Some? {
      PrintedReadsBack(thousands.value.value);
    }
  }

  lemma CellStands(header: seq<string>, row: seq<string>, c: Column, i: nat)
    requires NamesDiffer(header) && i < |header| && i < |row| && NormaliseName(header[i]) == NormaliseName(c.Name())
    ensures Cell(header, row, c) == Some(row[i])
  {
    hide NormaliseName;
    assert IndexOf(header, c.Name()) == i;
  }

  lemma AmountIsRead(header: seq<string>, row: seq<string>, c: Column)
    requires IsAmountColumn(c) && AmountsOf(header, row).Ok?
    ensures Ok(AmountUnder(AmountsOf(header, row).value, c)) == ToInr(Cell(header, row, c))
  {
    hide ToInr, Cell;
  }
}
