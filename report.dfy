/** The completeness report that `write_to_excel` writes into a worksheet,
    and the driver `process_base64_list` that feeds it
    (auto_test/ai_request.py). */
module Report {
  import opened Wrappers
  import opened Json
  import opened Extraction

  /** Rows and columns are numbered from 1, as in openpyxl. */
  type Index = i: int | 1 <= i witness 1

  datatype Pos = Pos(row: Index, col: Index)

  /** A cell's background: none, or a solid fill of one RGB colour. */
  datatype Fill = NoFill | Solid(rgb: string)

  datatype Cell = Cell(value: Value, fill: Fill)

  const Green: string := "00FF00"
  const Red: string := "FF0000"
  const Headers: seq<string> := ["Amount", "Date", "Trading Partner", "Completeness"]

  /** `m` is openpyxl's `max_row` for these cells: the largest row that holds
      a cell, or 1 when there is none. */
  ghost predicate IsMaxRow(keys: set<Pos>, m: int)
  {
    && (forall p :: p in keys ==> p.row <= m)
    && (if keys == {} then m == 1 else exists p :: p in keys && p.row == m)
  }

  /** `m` is openpyxl's `max_column`, in the same way. */
  ghost predicate IsMaxCol(keys: set<Pos>, m: int)
  {
    && (forall p :: p in keys ==> p.col <= m)
    && (if keys == {} then m == 1 else exists p :: p in keys && p.col == m)
  }

  /** A new cell on an occupied sheet raises `max_row` and `max_column` to
      its own row and column when those are larger. */
  lemma InsertKeepsMax(keys: set<Pos>, mr: int, mc: int, p: Pos)
    requires keys != {} && IsMaxRow(keys, mr) && IsMaxCol(keys, mc)
    ensures IsMaxRow(keys + {p}, if p.row > mr then p.row else mr)
    ensures IsMaxCol(keys + {p}, if p.col > mc then p.col else mc)
  {
    var r :| r in keys && r.row == mr;
    var c :| c in keys && c.col == mc;
    assert r in keys + {p} && c in keys + {p};
  }

  lemma {:induction false} MaxRowExists(keys: set<Pos>)
    ensures exists m: Index :: IsMaxRow(keys, m)
    decreases keys
  {
    if keys == {} {
      assert IsMaxRow(keys, 1);
    } else {
      var p :| p in keys;
      var rest := keys - {p};
      MaxRowExists(rest);
      var m: Index :| IsMaxRow(rest, m);
      if rest == {} {
        assert IsMaxRow(keys, p.row);
      } else if p.row > m {
        assert IsMaxRow(keys, p.row);
      } else {
        assert IsMaxRow(keys, m);
      }
    }
  }

  /** openpyxl's `max_row` of a set of occupied positions. */
  ghost function MaxRow(keys: set<Pos>): (m: Index)
    ensures IsMaxRow(keys, m)
  {
    MaxRowExists(keys);
    var m: Index :| IsMaxRow(keys, m);
    m
  }

  /** A report file as `load_workbook` finds it: its active sheet's title,
      cells and column widths. */
  datatype SavedSheet = SavedSheet(title: string, cells: map<Pos, Cell>, widths: map<Index, int>)

  /** The width rule's view of one value: `len(cell.value)` for a string.
      For any other value `len(str(value))` is computed but `len(value)`
      raises, and the bare `except` swallows it, so it counts for nothing. */
  function TextLength(v: Value): nat
  {
    if v.Str? then |v.s| else 0
  }

  function CellText(cells: map<Pos, Cell>, p: Pos): nat
  {
    if p in cells then TextLength(cells[p].value) else 0
  }

  /** The running `max_length` after the first `rows` cells of column `col`. */
  function LongestText(cells: map<Pos, Cell>, col: Index, rows: nat): nat
  {
    if rows == 0 then 0
    else
      var before := LongestText(cells, col, rows - 1);
      var here := CellText(cells, Pos(rows, col));
      if here > before then here else before
  }

  /** `max_length` is the length of the longest string among the first
      `rows` cells of the column, or 0 when there is none. */
  lemma {:induction false} LongestTextIsLongestString(cells: map<Pos, Cell>, col: Index, rows: nat)
    ensures forall r: Index :: r <= rows && Pos(r, col) in cells && cells[Pos(r, col)].value.Str? ==>
      |cells[Pos(r, col)].value.s| <= LongestText(cells, col, rows)
    ensures LongestText(cells, col, rows) == 0 ||
      exists r: Index :: r <= rows && Pos(r, col) in cells && cells[Pos(r, col)].value.Str? &&
        |cells[Pos(r, col)].value.s| == LongestText(cells, col, rows)
  {
    if rows > 0 {
      LongestTextIsLongestString(cells, col, rows - 1);
    }
  }

  /** The widths the final loop of `write_to_excel` assigns to columns 1 to
      `maxCol`, column by column. */
  function ColumnWidths(cells: map<Pos, Cell>, maxRow: Index, maxCol: nat): map<Index, int>
  {
    if maxCol == 0 then map[]
    else ColumnWidths(cells, maxRow, maxCol - 1)[maxCol := LongestText(cells, maxCol, maxRow) + 2]
  }

  /** Exactly the columns 1 to `maxCol` get a width, each 2 plus its longest
      string over rows 1 to `maxRow`; there is no upper cap. */
  lemma {:induction false} ColumnWidthsAt(cells: map<Pos, Cell>, maxRow: Index, maxCol: nat)
    ensures forall c: Index :: c in ColumnWidths(cells, maxRow, maxCol) <==> c <= maxCol
    ensures forall c: Index :: c <= maxCol ==>
      ColumnWidths(cells, maxRow, maxCol)[c] == LongestText(cells, c, maxRow) + 2
  {
    if maxCol > 0 {
      ColumnWidthsAt(cells, maxRow, maxCol - 1);
    }
  }

  lemma UpdateUnion<K, V>(a: map<K, V>, b: map<K, V>, k: K, v: V)
    ensures (a + b)[k := v] == a + b[k := v]
  {
  }

  /** The cell `write_to_excel` puts in column `col` of a record's row:
      the three fields (`None` when absent), then the coloured verdict. */
  function RecordCell(data: Record, col: Index): Cell
    requires col <= 4
  {
    if col == 1 then Cell(Get(data, "amount"), NoFill)
    else if col == 2 then Cell(Get(data, "date"), NoFill)
    else if col == 3 then Cell(Get(data, "trading_partner"), NoFill)
    else if CheckDataCompleteness(data) then Cell(Str("True"), Solid(Green))
    else Cell(Str("False"), Solid(Red))
  }

  /** The first `n` header titles on row 1, as the header loop writes them. */
  function HeaderCells(n: nat): map<Pos, Cell>
    requires n <= 4
  {
    if n == 0 then map[]
    else HeaderCells(n - 1)[Pos(1, n) := Cell(Str(Headers[n - 1]), NoFill)]
  }

  /** Row 1 of a fresh report. */
  function HeaderRow(): map<Pos, Cell>
  {
    HeaderCells(4)
  }

  /** The first `n` titles occupy columns 1 to `n` of row 1 and nothing else. */
  lemma {:induction false} HeaderCellsAt(n: nat)
    requires n <= 4
    ensures forall p :: p in HeaderCells(n) <==> p.row == 1 && p.col <= n
    ensures forall c: Index :: c <= n ==> HeaderCells(n)[Pos(1, c)] == Cell(Str(Headers[c - 1]), NoFill)
  {
    if n > 0 {
      HeaderCellsAt(n - 1);
    }
  }

  /** The rows the record loop writes from row `start` on, one record
      after the other. */
  function RecordRows(start: Index, data: seq<Record>): map<Pos, Cell>
  {
    if data == [] then map[]
    else RecordRows(start, data[..|data| - 1]) + RowCells(start + |data| - 1, data[|data| - 1])
  }

  /** The records fill rows `start .. start + |data| - 1`, columns 1 to 4
      and nothing else, record `k` on row `start + k`. */
  lemma {:induction false} RecordRowsLayout(start: Index, data: seq<Record>)
    ensures forall p :: p in RecordRows(start, data) <==> start <= p.row < start + |data| && p.col <= 4
    ensures forall k, c: Index :: 0 <= k < |data| && c <= 4 ==>
      Pos(start + k, c) in RecordRows(start, data) && RecordRows(start, data)[Pos(start + k, c)] == RecordCell(data[k], c)
    decreases |data|
  {
    if data != [] {
      var init, last := data[..|data| - 1], data[|data| - 1];
      RecordRowsLayout(start, init);
      RowCellsAt(start + |data| - 1, last);
      forall k, c: Index | 0 <= k < |data| && c <= 4
        ensures Pos(start + k, c) in RecordRows(start, data) && RecordRows(start, data)[Pos(start + k, c)] == RecordCell(data[k], c)
      {
        RecordRowsAt(start, data, k, start + k, c);
      }
    }
  }

  /** The row the first record goes to: 2 under a fresh header, otherwise
      the row after the saved sheet's `max_row`. */
  ghost function StartRow(existing: Option<SavedSheet>): Index
  {
    match existing
    case None => 2
    case Some(saved) => MaxRow(saved.cells.Keys) + 1
  }

  /** What the sheet holds before the records: the header row of a fresh
      report, or the saved sheet's cells. */
  ghost function WrittenBase(existing: Option<SavedSheet>): map<Pos, Cell>
  {
    match existing
    case None => HeaderRow()
    case Some(saved) => saved.cells
  }

  /** The cells of the sheet `write_to_excel` saves. */
  ghost function WrittenCells(existing: Option<SavedSheet>, dataList: seq<Record>): map<Pos, Cell>
  {
    WrittenBase(existing) + RecordRows(StartRow(existing), dataList)
  }

  class Worksheet {
    var title: string
    var cells: map<Pos, Cell>
    var widths: map<Index, int>
    var maxRow: Index
    var maxCol: Index

    ghost predicate Valid()
      reads this
    {
      IsMaxRow(cells.Keys, maxRow) && IsMaxCol(cells.Keys, maxCol)
    }

    /** `Workbook().active`: an empty sheet named "Sheet". */
    constructor Fresh()
      ensures Valid() && title == "Sheet" && cells == map[] && widths == map[]
    {
      title, cells, widths := "Sheet", map[], map[];
      maxRow, maxCol := 1, 1;
    }

    /** `load_workbook(...).active`. */
    constructor Load(saved: SavedSheet)
      ensures Valid() && title == saved.title && cells == saved.cells && widths == saved.widths
    {
      var r, c := Extent(saved.cells.Keys);
      title, cells, widths := saved.title, saved.cells, saved.widths;
      maxRow, maxCol := r, c;
    }

    /** `ws.cell(row, column, value)`: creates the cell when it is missing,
        and stores `value` unless it is `None`. */
    method SetCell(p: Pos, v: Value)
      requires Valid()
      modifies this
      ensures Valid() && title == old(title) && widths == old(widths)
      ensures p !in old(cells) ==> cells == old(cells)[p := Cell(v, NoFill)]
      ensures p in old(cells) && v == Null ==> cells == old(cells)
      ensures p in old(cells) && v != Null ==> cells == old(cells)[p := old(cells)[p].(value := v)]
    {
      if p !in cells {
        AddCell(p, Cell(v, NoFill));
      } else if v != Null {
        assert cells[p := cells[p].(value := v)].Keys == cells.Keys;
        cells := cells[p := cells[p].(value := v)];
      }
    }

    /** A cell at a position that held none: the sheet's extent grows to
        take it in. */
    method AddCell(p: Pos, c: Cell)
      requires Valid() && p !in cells
      modifies this
      ensures Valid() && title == old(title) && widths == old(widths)
      ensures cells == old(cells)[p := c]
    {
      if cells == map[] {
        maxRow, maxCol := p.row, p.col;
        assert cells[p := c].Keys == {p};
      } else {
        InsertKeepsMax(cells.Keys, maxRow, maxCol, p);
        if p.row > maxRow { maxRow := p.row; }
        if p.col > maxCol { maxCol := p.col; }
      }
      cells := cells[p := c];
    }

    /** `cell.fill = PatternFill(...)` on an existing cell. */
    method SetFill(p: Pos, fill: Fill)
      requires Valid() && p in cells
      modifies this
      ensures Valid() && title == old(title) && widths == old(widths)
      ensures cells == old(cells)[p := old(cells)[p].(fill := fill)]
    {
      cells := cells[p := cells[p].(fill := fill)];
    }

    /** The header loop of a fresh report: row 1 gets the four titles. */
    method WriteHeaders()
      requires Valid() && cells == map[]
      modifies this
      ensures Valid() && title == old(title) && widths == old(widths)
      ensures cells == HeaderRow()
    {
      for col := 1 to 5
        invariant Valid() && title == old(title) && widths == old(widths)
        invariant cells == HeaderCells(col - 1)
      {
        HeaderCellsAt(col - 1);
        var header := Headers[col - 1];
        SetCell(Pos(1, col), Str(header));
      }
    }

    /** One pass of the record loop: the three fields, then the verdict cell
        and its fill, on a row below every occupied one. */
    method WriteRecord(row: Index, data: Record)
      requires Valid() && maxRow < row
      modifies this
      ensures Valid() && title == old(title) && widths == old(widths) && maxRow == row
      ensures cells == old(cells) + RowCells(row, data)
    {
      ghost var before := cells;
      assert forall c: Index :: Pos(row, c) !in before;
      SetCell(Pos(row, 1), Get(data, "amount"));
      SetCell(Pos(row, 2), Get(data, "date"));
      SetCell(Pos(row, 3), Get(data, "trading_partner"));
      var isComplete := CheckDataCompleteness(data);
      var verdict := Str(if isComplete then "True" else "False");
      assert Pos(row, 4) !in cells;
      SetCell(Pos(row, 4), verdict);
      if isComplete {
        SetFill(Pos(row, 4), Solid(Green));
      } else {
        SetFill(Pos(row, 4), Solid(Red));
      }
      RowCellsAsUpdates(before, row, data);
      NewRowIsMax(before, row, data);
      MaxRowUnique(cells.Keys, maxRow, row);
    }

    /** The record loop: record `k` of `dataList` on row `start + k`. */
    method WriteRecords(start: Index, dataList: seq<Record>)
      requires Valid() && maxRow < start
      modifies this
      ensures Valid() && title == old(title) && widths == old(widths)
      ensures cells == old(cells) + RecordRows(start, dataList)
    {
      var row := start;
      assert RecordRows(start, dataList[..0]) == map[];
      assert cells + map[] == cells;
      for k := 0 to |dataList|
        invariant Valid() && row == start + k && maxRow < row
        invariant title == old(title) && widths == old(widths)
        invariant cells == old(cells) + RecordRows(start, dataList[..k])
      {
        WriteRecord(row, dataList[k]);
        AppendRow(old(cells), start, dataList, k, row);
        row := row + 1;
      }
      assert dataList[..|dataList|] == dataList;
    }

    /** The inner loop of the width adjustment over column `col`. */
    method LongestTextIn(col: Index) returns (maxLength: nat)
      ensures maxLength == LongestText(cells, col, maxRow)
    {
      maxLength := 0;
      var row := 1;
      while row <= maxRow
        invariant 1 <= row <= maxRow + 1
        invariant maxLength == LongestText(cells, col, row - 1)
      {
        var value := if Pos(row, col) in cells then cells[Pos(row, col)].value else Null;
        if value.Str? && |value.s| > maxLength {
          maxLength := |value.s|;
        }
        row := row + 1;
      }
    }

    /** The column-width loop of an occupied sheet: column `c`, for every
        `c` up to `max_column`, is given 2 plus its longest string; the
        widths of other columns are kept. */
    method FitWidths() returns (fitted: map<Index, int>)
      ensures fitted == widths + ColumnWidths(cells, maxRow, maxCol)
    {
      fitted := widths;
      assert widths + map[] == widths;
      var col: Index := 1;
      while col <= maxCol
        invariant col <= maxCol + 1
        invariant fitted == widths + ColumnWidths(cells, maxRow, col - 1)
      {
        var maxLength := LongestTextIn(col);
        UpdateUnion(widths, ColumnWidths(cells, maxRow, col - 1), col, maxLength + 2);
        fitted := fitted[col := maxLength + 2];
        col := col + 1;
      }
    }

    /** The width adjustment: an empty sheet has no columns to visit. */
    method AutoFitColumns()
      requires Valid()
      modifies this
      ensures Valid() && title == old(title) && cells == old(cells)
      ensures maxRow == old(maxRow) && maxCol == old(maxCol)
      ensures widths == if cells == map[] then old(widths) else old(widths) + ColumnWidths(cells, maxRow, maxCol)
    {
      if cells != map[] {
        widths := FitWidths();
      }
    }
  }

  /** openpyxl's `max_row` and `max_column` of a set of occupied positions. */
  method Extent(keys: set<Pos>) returns (maxRow: Index, maxCol: Index)
    ensures IsMaxRow(keys, maxRow) && IsMaxCol(keys, maxCol)
  {
    maxRow, maxCol := 1, 1;
    var rest := keys;
    while rest != {}
      invariant rest <= keys
      invariant IsMaxRow(keys - rest, maxRow) && IsMaxCol(keys - rest, maxCol)
      decreases rest
    {
      var p :| p in rest;
      var seen := keys - rest;
      if seen == {} {
        maxRow, maxCol := p.row, p.col;
      } else {
        if p.row > maxRow { maxRow := p.row; }
        if p.col > maxCol { maxCol := p.col; }
      }
      rest := rest - {p};
      assert keys - rest == seen + {p};
    }
  }

  /** The four cells of record `data` on row `row`. */
  function RowCells(row: Index, data: Record): map<Pos, Cell>
  {
    map[Pos(row, 1) := RecordCell(data, 1), Pos(row, 2) := RecordCell(data, 2),
        Pos(row, 3) := RecordCell(data, 3), Pos(row, 4) := RecordCell(data, 4)]
  }

  lemma RowCellsAt(row: Index, data: Record)
    ensures forall p :: p in RowCells(row, data) <==> p.row == row && p.col <= 4
    ensures forall c: Index :: c <= 4 ==> RowCells(row, data)[Pos(row, c)] == RecordCell(data, c)
  {
    forall p: Pos | p.row == row && p.col <= 4 ensures p in RowCells(row, data) {
      assert p == Pos(row, p.col);
    }
  }

  lemma RowCellsAsUpdates(m: map<Pos, Cell>, row: Index, data: Record)
    ensures var v := Str(if CheckDataCompleteness(data) then "True" else "False");
      m + RowCells(row, data) ==
      m[Pos(row, 1) := Cell(Get(data, "amount"), NoFill)]
       [Pos(row, 2) := Cell(Get(data, "date"), NoFill)]
       [Pos(row, 3) := Cell(Get(data, "trading_partner"), NoFill)]
       [Pos(row, 4) := Cell(v, NoFill)]
       [Pos(row, 4) := Cell(v, Solid(if CheckDataCompleteness(data) then Green else Red))]
  {
    var v := Str(if CheckDataCompleteness(data) then "True" else "False");
    var a := m + RowCells(row, data);
    var b := m[Pos(row, 1) := Cell(Get(data, "amount"), NoFill)]
       [Pos(row, 2) := Cell(Get(data, "date"), NoFill)]
       [Pos(row, 3) := Cell(Get(data, "trading_partner"), NoFill)]
       [Pos(row, 4) := Cell(v, NoFill)]
       [Pos(row, 4) := Cell(v, Solid(if CheckDataCompleteness(data) then Green else Red))];
    assert RecordCell(data, 4) == Cell(v, Solid(if CheckDataCompleteness(data) then Green else Red));
    assert a.Keys == b.Keys;
  }

  lemma RecordRowsExtend(start: Index, data: seq<Record>, k: nat)
    requires k < |data|
    ensures RecordRows(start, data[..k + 1]) == RecordRows(start, data[..k]) + RowCells(start + k, data[k])
  {
    assert data[..k + 1][..k] == data[..k];
  }

  /** `write_to_excel(data_list)`, given what `load_workbook` would find
      (`None` when the report file does not exist). Returns the sheet that
      `wb.save` writes. */
  method WriteToExcel(dataList: seq<Record>, existing: Option<SavedSheet>) returns (ws: Worksheet)
    ensures fresh(ws) && ws.Valid()
    ensures ws.title == if existing.None? then "json_check" else existing.value.title
    ensures ws.cells == WrittenCells(existing, dataList)
    ensures var before := if existing.None? then map[] else existing.value.widths;
      ws.widths == if ws.cells == map[] then before else before + ColumnWidths(ws.cells, ws.maxRow, ws.maxCol)
  {
    var row: Index;
    if existing.Some? {
      ws := new Worksheet.Load(existing.value);
      row := ws.maxRow + 1;
      MaxRowUnique(existing.value.cells.Keys, ws.maxRow, MaxRow(existing.value.cells.Keys));
    } else {
      ws := new Worksheet.Fresh();
      ws.title := "json_check";
      ws.WriteHeaders();
      row := 2;
    }
    assert row == StartRow(existing);
    ws.WriteRecords(row, dataList);
    ws.AutoFitColumns();
  }

  lemma UnionAssociative<K, V>(a: map<K, V>, b: map<K, V>, c: map<K, V>)
    ensures (a + b) + c == a + (b + c)
  {
  }


  lemma AppendRow(base: map<Pos, Cell>, start: Index, data: seq<Record>, k: nat, row: Index)
    requires k < |data| && row == start + k
    ensures (base + RecordRows(start, data[..k])) + RowCells(row, data[k]) == base + RecordRows(start, data[..k + 1])
  {
    RecordRowsExtend(start, data, k);
    UnionAssociative(base, RecordRows(start, data[..k]), RowCells(start + k, data[k]));
  }

  /** A record row written below every occupied row becomes the last row. */
  lemma NewRowIsMax(m: map<Pos, Cell>, row: Index, data: Record)
    requires forall p :: p in m ==> p.row < row
    ensures IsMaxRow((m + RowCells(row, data)).Keys, row)
  {
    RowCellsAt(row, data);
    assert Pos(row, 1) in (m + RowCells(row, data)).Keys;
  }

  lemma MaxRowUnique(keys: set<Pos>, a: int, b: int)
    requires IsMaxRow(keys, a) && IsMaxRow(keys, b)
    ensures a == b
  {
  }

  /** On a fresh report row 1 holds the four headers, and nothing else is on
      row 1. */
  lemma FreshReportHasHeaders(dataList: seq<Record>)
    ensures StartRow(None) == 2
    ensures forall c: Index :: c <= 4 ==>
      Pos(1, c) in WrittenCells(None, dataList) &&
      WrittenCells(None, dataList)[Pos(1, c)] == Cell(Str(Headers[c - 1]), NoFill)
    ensures forall p :: p in WrittenCells(None, dataList) && p.row == 1 ==> p.col <= 4
  {
    HeaderCellsAt(4);
    RecordRowsLayout(2, dataList);
  }

  /** Appending to a saved report writes no header and leaves every
      earlier cell as it was; nothing new appears at or above its `max_row`. */
  lemma AppendKeepsEarlierRows(saved: SavedSheet, dataList: seq<Record>)
    ensures var written := WrittenCells(Some(saved), dataList);
      && (forall p :: p in saved.cells ==> p in written && written[p] == saved.cells[p])
      && (forall p :: p in written && p.row < StartRow(Some(saved)) ==> p in saved.cells)
  {
    var start := StartRow(Some(saved));
    RecordRowsLayout(start, dataList);
    assert forall p :: p in saved.cells ==> p !in RecordRows(start, dataList);
  }

  /** Record `k` of the list is on row `StartRow + k`: amount, date and
      trading partner in columns 1 to 3 (`None` when absent), and in column 4
      the string "True" on green exactly when the record is complete,
      otherwise "False" on red. */
  lemma RecordRowLayout(existing: Option<SavedSheet>, dataList: seq<Record>, k: nat)
    requires k < |dataList|
    ensures var written, row, data := WrittenCells(existing, dataList), StartRow(existing) + k, dataList[k];
      && Pos(row, 1) in written && written[Pos(row, 1)] == Cell(Get(data, "amount"), NoFill)
      && Pos(row, 2) in written && written[Pos(row, 2)] == Cell(Get(data, "date"), NoFill)
      && Pos(row, 3) in written && written[Pos(row, 3)] == Cell(Get(data, "trading_partner"), NoFill)
      && Pos(row, 4) in written
      && (written[Pos(row, 4)].value == Str("True") <==> CheckDataCompleteness(data))
      && (written[Pos(row, 4)].value == Str("False") <==> !CheckDataCompleteness(data))
      && written[Pos(row, 4)].fill == Solid(if CheckDataCompleteness(data) then Green else Red)
  {
    var row: Index := StartRow(existing) + k;
    var written := WrittenCells(existing, dataList);
    WrittenCellsAt(existing, dataList, k, 1);
    WrittenCellsAt(existing, dataList, k, 2);
    WrittenCellsAt(existing, dataList, k, 3);
    WrittenCellsAt(existing, dataList, k, 4);
    VerdictCell(dataList[k]);
  }

  lemma VerdictCell(data: Record)
    ensures RecordCell(data, 4).value == Str("True") <==> CheckDataCompleteness(data)
    ensures RecordCell(data, 4).value == Str("False") <==> !CheckDataCompleteness(data)
    ensures RecordCell(data, 4).fill == Solid(if CheckDataCompleteness(data) then Green else Red)
  {
    assert Str("True") != Str("False");
  }

  lemma {:induction false} RecordRowsAt(start: Index, dataList: seq<Record>, k: nat, row: Index, col: Index)
    requires k < |dataList| && row == start + k && col <= 4
    ensures Pos(row, col) in RecordRows(start, dataList)
    ensures RecordRows(start, dataList)[Pos(row, col)] == RecordCell(dataList[k], col)
    decreases |dataList|
  {
    var n := |dataList| - 1;
    var earlier, last := RecordRows(start, dataList[..n]), RowCells(start + n, dataList[n]);
    assert RecordRows(start, dataList) == earlier + last;
    RowCellsAt(start + n, dataList[n]);
    if k < n {
      RecordRowsAt(start, dataList[..n], k, row, col);
      assert dataList[..n][k] == dataList[k];
      UnionLeft(earlier, last, Pos(row, col));
    } else {
      assert last[Pos(start + n, col)] == RecordCell(dataList[n], col);
      UnionRight(earlier, last, Pos(row, col));
    }
  }

  lemma UnionLeft<K, V>(a: map<K, V>, b: map<K, V>, k: K)
    requires k in a && k !in b
    ensures k in a + b && (a + b)[k] == a[k]
  {
  }

  lemma UnionRight<K, V>(a: map<K, V>, b: map<K, V>, k: K)
    requires k in b
    ensures k in a + b && (a + b)[k] == b[k]
  {
  }

  /** Record `k` lands on row `StartRow + k` of the saved sheet. */
  lemma WrittenCellsAt(existing: Option<SavedSheet>, dataList: seq<Record>, k: nat, col: Index)
    requires k < |dataList| && col <= 4
    ensures Pos(StartRow(existing) + k, col) in WrittenCells(existing, dataList)
    ensures WrittenCells(existing, dataList)[Pos(StartRow(existing) + k, col)] == RecordCell(dataList[k], col)
  {
    var start, rows := StartRow(existing), RecordRows(StartRow(existing), dataList);
    var base := WrittenBase(existing);
    RecordRowsAt(start, dataList, k, start + k, col);
    UnionRight(base, rows, Pos(start + k, col));
  }

  /** The records occupy exactly the rows `StartRow .. StartRow + |dataList| - 1`,
      and the last of them becomes the sheet's new `max_row`; with no
      records the `max_row` stays the row above `StartRow`. */
  lemma ReportRowCount(existing: Option<SavedSheet>, dataList: seq<Record>)
    ensures IsMaxRow(WrittenCells(existing, dataList).Keys, StartRow(existing) + |dataList| - 1)
  {
    if dataList == [] {
      NoRecordsKeepMaxRow(existing, dataList);
    } else {
      LastRecordIsMaxRow(existing, dataList);
    }
  }

  lemma NoRecordsKeepMaxRow(existing: Option<SavedSheet>, dataList: seq<Record>)
    requires dataList == []
    ensures IsMaxRow(WrittenCells(existing, dataList).Keys, StartRow(existing) - 1)
  {
    assert RecordRows(StartRow(existing), dataList) == map[];
    match existing
    case None =>
      HeaderCellsAt(4);
      assert HeaderRow() + map[] == HeaderRow();
      assert Pos(1, 1) in HeaderRow();
    case Some(saved) =>
      assert saved.cells + map[] == saved.cells;
  }

  lemma LastRecordIsMaxRow(existing: Option<SavedSheet>, dataList: seq<Record>)
    requires dataList != []
    ensures IsMaxRow(WrittenCells(existing, dataList).Keys, StartRow(existing) + |dataList| - 1)
  {
    var start := StartRow(existing);
    var written := WrittenCells(existing, dataList);
    var last := Pos(start + |dataList| - 1, 1);
    RecordRowsLayout(start, dataList);
    assert last in RecordRows(start, dataList);
    assert last in written;
    match existing
    case None =>
      HeaderCellsAt(4);
    case Some(saved) =>
      assert forall p :: p in saved.cells ==> p.row < start;
  }

  /** `call_openai_api`, left abstract: it catches its own errors, so it
      never raises; `None` stands for a failed call. The items are the
      payloads `process_folder` produced, `None` for an image that failed. */
  type ApiCall = Option<string> -> Option<Response>

  /** What `save_response_as_json(call_openai_api(item))` returns, item by item. */
  function Results(items: seq<Option<string>>, call: ApiCall, parse: Parser): (outs: seq<Outcome<Option<Value>>>)
    ensures |outs| == |items|
  {
    seq(|items|, k requires 0 <= k < |items| => SaveResponseAsJson(call(items[k]), parse))
  }

  /** Every value the extraction returns is a JSON object. */
  ghost predicate ObjectsOnly(outs: seq<Outcome<Option<Value>>>)
  {
    forall k :: 0 <= k < |outs| && outs[k].Returned? && outs[k].value.Some? ==> outs[k].value.value.Object?
  }

  lemma ResultsAreObjects(items: seq<Option<string>>, call: ApiCall, parse: Parser)
    requires LoadsLikeJson(parse)
    ensures ObjectsOnly(Results(items, call, parse))
  {
    var outs := Results(items, call, parse);
    forall k | 0 <= k < |outs| && outs[k].Returned? && outs[k].value.Some?
      ensures outs[k].value.value.Object?
    {
      ExtractedIsObject(call(items[k]), parse);
    }
  }

  /** The loop of `process_base64_list` over the items' results: the records
      kept in `all_data`, or `Raised` when an extraction raised on the way. */
  function Collect(outs: seq<Outcome<Option<Value>>>): Outcome<seq<Record>>
    requires ObjectsOnly(outs)
  {
    if outs == [] then Returned([])
    else
      assert ObjectsOnly(outs[..|outs| - 1]) by {
        assert forall k :: 0 <= k < |outs| - 1 ==> outs[..|outs| - 1][k] == outs[k];
      }
      match Collect(outs[..|outs| - 1])
      case Raised => Raised
      case Returned(kept) =>
        match outs[|outs| - 1]
        case Raised => Raised
        case Returned(info) =>
          if info.Some? && Truthy(info.value) then Returned(kept + [info.value.fields])
          else Returned(kept)
  }

  lemma ObjectsOnlyPrefix(outs: seq<Outcome<Option<Value>>>, n: nat)
    requires ObjectsOnly(outs) && n <= |outs|
    ensures ObjectsOnly(outs[..n])
  {
    assert forall k :: 0 <= k < n ==> outs[..n][k] == outs[k];
  }

  /** The run raises exactly when the extraction of some item raises. */
  lemma {:induction false} CollectRaisesIff(outs: seq<Outcome<Option<Value>>>)
    requires ObjectsOnly(outs)
    ensures Collect(outs).Raised? <==> exists k :: 0 <= k < |outs| && outs[k].Raised?
  {
    if outs != [] {
      var init := outs[..|outs| - 1];
      ObjectsOnlyPrefix(outs, |outs| - 1);
      CollectRaisesIff(init);
      assert forall k :: 0 <= k < |init| ==> init[k] == outs[k];
    }
  }

  /** `kept` is what filtering the results in order leaves: `idx` lists, in
      increasing order, the items whose result was a non-empty object, which
      is `kept` one for one; every other item returned `None` or a falsy
      value. */
  ghost predicate SelectedInOrder(kept: seq<Record>, outs: seq<Outcome<Option<Value>>>, idx: seq<int>)
  {
    && |idx| == |kept|
    && (forall a, b :: 0 <= a < b < |idx| ==> idx[a] < idx[b])
    && (forall a :: 0 <= a < |idx| ==>
          0 <= idx[a] < |outs| && kept[a] != map[] && outs[idx[a]] == Returned(Some(Object(kept[a]))))
    && (forall k :: 0 <= k < |outs| && k !in idx ==>
          outs[k].Returned? && (outs[k].value.None? || !Truthy(outs[k].value.value)))
  }

  /** Extending the results by one item the loop keeps. */
  lemma SelectedKeep(kept: seq<Record>, outs: seq<Outcome<Option<Value>>>, idx: seq<int>, fields: Record)
    requires |outs| > 0 && SelectedInOrder(kept, outs[..|outs| - 1], idx)
    requires outs[|outs| - 1] == Returned(Some(Object(fields))) && Truthy(Object(fields))
    ensures SelectedInOrder(kept + [fields], outs, idx + [|outs| - 1])
  {
    var n := |outs| - 1;
    var init := outs[..n];
    var kept', idx' := kept + [fields], idx + [n];
    assert forall k :: 0 <= k < n ==> init[k] == outs[k];
    forall a, b | 0 <= a < b < |idx'| ensures idx'[a] < idx'[b] {
      if b < |idx| { assert idx'[a] == idx[a] && idx'[b] == idx[b]; }
      else { assert idx'[a] == idx[a] < n; }
    }
    forall a | 0 <= a < |idx'|
      ensures 0 <= idx'[a] < |outs| && kept'[a] != map[] && outs[idx'[a]] == Returned(Some(Object(kept'[a])))
    {
      if a < |idx| { assert idx'[a] == idx[a] && kept'[a] == kept[a]; }
    }
    forall k | 0 <= k < |outs| && k !in idx'
      ensures outs[k].Returned? && (outs[k].value.None? || !Truthy(outs[k].value.value))
    {
      assert k != n && k !in idx;
      assert outs[k] == init[k];
    }
  }

  /** Extending the results by one item the loop skips. */
  lemma SelectedSkip(kept: seq<Record>, outs: seq<Outcome<Option<Value>>>, idx: seq<int>)
    requires |outs| > 0 && SelectedInOrder(kept, outs[..|outs| - 1], idx)
    requires outs[|outs| - 1].Returned?
    requires outs[|outs| - 1].value.None? || !Truthy(outs[|outs| - 1].value.value)
    ensures SelectedInOrder(kept, outs, idx)
  {
    var n := |outs| - 1;
    var init := outs[..n];
    assert forall k :: 0 <= k < n ==> init[k] == outs[k];
    forall k | 0 <= k < |outs| && k !in idx
      ensures outs[k].Returned? && (outs[k].value.None? || !Truthy(outs[k].value.value))
    {
      if k < n { assert outs[k] == init[k]; }
    }
  }

  /** `all_data` keeps exactly the truthy results, in input order. */
  lemma {:induction false} CollectKeepsTruthyInOrder(outs: seq<Outcome<Option<Value>>>)
    requires ObjectsOnly(outs) && Collect(outs).Returned?
    ensures exists idx :: SelectedInOrder(Collect(outs).value, outs, idx)
  {
    if outs == [] {
      assert SelectedInOrder([], outs, []);
    } else {
      var n := |outs| - 1;
      var init := outs[..n];
      ObjectsOnlyPrefix(outs, n);
      var kept := Collect(init).value;
      CollectKeepsTruthyInOrder(init);
      var idx :| SelectedInOrder(kept, init, idx);
      var info := outs[n].value;
      if info.Some? && Truthy(info.value) {
        assert outs[n].Returned? && outs[n].value.Some?;
        assert info.value.Object?;
        assert Collect(outs).value == kept + [info.value.fields];
        SelectedKeep(kept, outs, idx, info.value.fields);
      } else {
        assert Collect(outs).value == kept;
        SelectedSkip(kept, outs, idx);
      }
    }
  }

  /** One more iteration of the loop: the next result is kept or skipped. */
  lemma CollectStep(outs: seq<Outcome<Option<Value>>>, i: nat, kept: seq<Record>)
    requires ObjectsOnly(outs) && i < |outs| && outs[i].Returned?
    requires ObjectsOnly(outs[..i]) && Collect(outs[..i]) == Returned(kept)
    ensures ObjectsOnly(outs[..i + 1])
    ensures outs[i].value.Some? ==> outs[i].value.value.Object?
    ensures Collect(outs[..i + 1]) ==
      if outs[i].value.Some? && Truthy(outs[i].value.value) then Returned(kept + [outs[i].value.value.fields])
      else Returned(kept)
  {
    ObjectsOnlyPrefix(outs, i + 1);
    assert outs[..i + 1][..i] == outs[..i];
    assert outs[..i + 1][i] == outs[i];
  }

  /** A raising item makes the whole run raise. */
  lemma CollectRaisedAt(outs: seq<Outcome<Option<Value>>>, i: nat)
    requires ObjectsOnly(outs) && i < |outs| && outs[i].Raised?
    ensures Collect(outs).Raised?
  {
    CollectRaisesIff(outs);
  }

  /** The loop of `process_base64_list`: one API call per item until an
      extraction raises. `calls` counts the API calls made. */
  method CallEach(items: seq<Option<string>>, call: ApiCall, parse: Parser)
    returns (calls: nat, result: Outcome<seq<Record>>)
    requires LoadsLikeJson(parse)
    ensures ObjectsOnly(Results(items, call, parse))
    ensures result == Collect(Results(items, call, parse))
    ensures result.Returned? ==> calls == |items|
    ensures result.Raised? ==>
      0 < calls <= |items| && Results(items, call, parse)[calls - 1].Raised? &&
      forall j :: 0 <= j < calls - 1 ==> !Results(items, call, parse)[j].Raised?
  {
    ghost var outs := Results(items, call, parse);
    ResultsAreObjects(items, call, parse);
    var allData: seq<Record> := [];
    calls := 0;
    for i := 0 to |items|
      invariant calls == i
      invariant ObjectsOnly(outs[..i]) && Collect(outs[..i]) == Returned(allData)
      invariant forall j :: 0 <= j < i ==> !outs[j].Raised?
    {
      var response := call(items[i]);
      calls := calls + 1;
      var extracted := SaveResponseAsJson(response, parse);
      assert extracted == outs[i];
      if extracted.Raised? {
        CollectRaisedAt(outs, i);
        return calls, Raised;
      }
      assert forall j :: 0 <= j < i + 1 ==> !outs[j].Raised?;
      CollectStep(outs, i, allData);
      if extracted.value.Some? && Truthy(extracted.value.value) {
        allData := allData + [extracted.value.value.fields];
      }
    }
    assert outs[..|items|] == outs;
    result := Returned(allData);
  }

  /** `process_base64_list(base64_list)`: the calls, then the report, written
      once and only when at least one record was kept. */
  method ProcessBase64List(items: seq<Option<string>>, call: ApiCall, parse: Parser, existing: Option<SavedSheet>)
    returns (calls: nat, result: Outcome<seq<Record>>, report: Worksheet?)
    requires LoadsLikeJson(parse)
    ensures ObjectsOnly(Results(items, call, parse))
    ensures result == Collect(Results(items, call, parse))
    ensures result.Returned? ==> calls == |items|
    ensures result.Raised? ==>
      0 < calls <= |items| && Results(items, call, parse)[calls - 1].Raised? &&
      forall j :: 0 <= j < calls - 1 ==> !Results(items, call, parse)[j].Raised?
    ensures report != null <==> result.Returned? && result.value != []
    ensures report != null ==>
      fresh(report) && report.Valid() && report.cells == WrittenCells(existing, result.value)
    ensures report != null ==>
      report.title == (if existing.None? then "json_check" else existing.value.title)
    ensures report != null ==>
      var before := if existing.None? then map[] else existing.value.widths;
      report.widths == if report.cells == map[] then before else before + ColumnWidths(report.cells, report.maxRow, report.maxCol)
  {
    calls, result := CallEach(items, call, parse);
    if result.Returned? && result.value != [] {
      report := WriteToExcel(result.value, existing);
    } else {
      report := null;
    }
  }
}
