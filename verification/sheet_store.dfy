/**
 The sparse cell store of GtkSheet: an array of row arrays of cell pointers that is
 allocated lazily, so that its bounds lag behind the size of the sheet.
 */
module SheetStore {
  import opened Wrappers
  import opened SheetRange
  import opened SheetSpec

  /** GtkSheetCell: a text, and the position the cell believes it has. */
  class Cell {
    var row: int
    var col: int
    var text: Option<string>

    constructor ()
      ensures text == None
    {
      row, col, text := 0, 0, None;
    }
  }

  /** What g_realloc leaves of an array of pointers: a prefix, then entries still to be set. */
  function Resized<T>(s: seq<T>, n: nat, filler: T): (r: seq<T>)
    ensures |r| == n
    ensures forall i | 0 <= i < n && i < |s| :: r[i] == s[i]
  {
    if n <= |s| then s[..n] else s + Repeat(n - |s|, filler)
  }

  /** The loop of InsertRow and InsertColumn that sinks the last `n` headers into the gap at `k`, stride by stride. */
  method SinkHeaders(headers: seq<Header>, k: nat, n: nat, size: nat) returns (s: seq<Header>)
    requires n <= |headers|
    requires forall p {:trigger headers[p]} | |headers| - n <= p < |headers| :: Bare(headers[p]) == FreshHeader(size)
    ensures |s| == |headers|
    ensures forall p {:trigger s[p]} | 0 <= p < |s| - n && p < k :: s[p] == headers[p]
    ensures forall p {:trigger s[p]} | Min(k, |s| - n) <= p < Min(k, |s| - n) + n :: Bare(s[p]) == FreshHeader(size)
    ensures forall p {:trigger s[p]} | k + n <= p < |s| :: Bare(s[p]) == Bare(headers[p - n])
  {
    s := headers;
    var i := |s| - 1;
    while i >= k + n
      invariant -1 <= i < |s| == |headers|
      invariant if k + n <= |s| then k + n - 1 <= i else i == |s| - 1 && s == headers
      invariant forall p {:trigger s[p]} | i < p < |s| :: Bare(s[p]) == Bare(headers[p - n])
      invariant k + n <= |s| ==> forall p {:trigger s[p]} | k <= p <= i && i - n < p :: Bare(s[p]) == FreshHeader(size)
      invariant forall p {:trigger s[p]} | 0 <= p <= i && (p < k || p <= i - n) :: s[p] == headers[p]
    {
      var aux, moved := s[i], s[i - n];
      if aux.visible { moved := moved.(pixel := moved.pixel + n * size); }
      s := s[i := moved][i - n := aux];
      i := i - 1;
    }
  }

  /** The first header loop of DeleteRow and DeleteColumn: the names and titles of the band go. */
  method ClearNames(headers: seq<Header>, k: nat, n: nat) returns (s: seq<Header>)
    requires k + n <= |headers|
    ensures |s| == |headers|
    ensures forall p {:trigger s[p]} | 0 <= p < |s| && (p < k || k + n <= p) :: s[p] == headers[p]
  {
    s := headers;
    for i := k to k + n
      invariant |s| == |headers|
      invariant forall p {:trigger s[p]} | 0 <= p < |s| && (p < k || k + n <= p) :: s[p] == headers[p]
    {
      if s[i].name != None { s := s[i := s[i].(name := None)]; }
      if s[i].title != None { s := s[i := s[i].(title := None)]; }
    }
  }

  /** Both header loops: the names of the band go, the headers behind it move up. */
  method RaiseHeaders(headers: seq<Header>, max: int, k: nat, n: nat) returns (s: seq<Header>)
    requires k + n <= max + 1 <= |headers|
    ensures |s| == |headers|
    ensures s[..max - n + 1] == Delete(headers[..max + 1], k, n)
  {
    s := ClearNames(headers, k, n);
    for i := k to max - n + 1
      invariant |s| == |headers|
      invariant forall p {:trigger s[p]} | 0 <= p < k :: s[p] == headers[p]
      invariant forall p {:trigger s[p]} | k <= p < i :: s[p] == headers[p + n]
      invariant forall p {:trigger s[p]} | i <= p < |s| && k + n <= p :: s[p] == headers[p]
    {
      if i + n <= max { s := s[i := s[i + n]]; }
    }
    IsDeleted(s, headers, max, k, n);
  }

  lemma IsDeleted(s: seq<Header>, headers: seq<Header>, max: int, k: nat, n: nat)
    requires k + n <= max + 1 <= |headers| == |s|
    requires forall p {:trigger s[p]} | 0 <= p < k :: s[p] == headers[p]
    requires forall p {:trigger s[p]} | k <= p < max - n + 1 :: s[p] == headers[p + n]
    ensures s[..max - n + 1] == Delete(headers[..max + 1], k, n)
  {
    var t := headers[..max + 1];
    if k < |t| {
      forall p | 0 <= p < max + 1 - n ensures p < |Delete(t, k, n)| && s[p] == Delete(t, k, n)[p] {
        DeletedElement(t, k, n, p);
      }
      assert |Delete(t, k, n)| == max + 1 - n;
    }
  }

  /** gtk_sheet_recalc_top_ypixels and gtk_sheet_recalc_left_xpixels over the headers up to index `max`. */
  method RecalcPixels(headers: seq<Header>, max: int, origin: int) returns (s: seq<Header>)
    requires -1 <= max < |headers|
    ensures |s| == |headers|
    ensures s[..max + 1] == Recalc(headers[..max + 1], origin)
  {
    s := headers;
    var c := origin;
    for i := 0 to max + 1
      invariant |s| == |headers|
      invariant c == origin + VisibleSize(headers[..i])
      invariant forall p | 0 <= p < i :: s[p] == headers[p].(pixel := origin + VisibleSize(headers[..p]))
      invariant forall p | i <= p < |s| :: s[p] == headers[p]
    {
      VisibleSizeNext(headers, i);
      s := s[i := s[i].(pixel := c)];
      if s[i].visible { c := c + s[i].size; }
    }
    IsRecalc(s, headers, max, origin);
  }

  lemma IsRecalc(s: seq<Header>, headers: seq<Header>, max: int, origin: int)
    requires -1 <= max < |headers| == |s|
    requires forall p | 0 <= p <= max :: s[p] == headers[p].(pixel := origin + VisibleSize(headers[..p]))
    ensures s[..max + 1] == Recalc(headers[..max + 1], origin)
  {
    var t := headers[..max + 1];
    forall p | 0 <= p <= max ensures s[p] == Recalc(t, origin)[p] {
      assert t[..p] == headers[..p];
    }
  }

  lemma VisibleSizeNext(s: seq<Header>, i: nat)
    requires i < |s|
    ensures VisibleSize(s[..i + 1]) == VisibleSize(s[..i]) + Extent(s[i])
  {
    assert s[..i + 1][..i] == s[..i];
  }

  /** The header part of InsertRow and InsertColumn, once the `n` fresh headers are appended. */
  method InsertHeaders(headers: seq<Header>, ghost before: seq<Header>, k: nat, n: nat, size: nat, origin: int) returns (s: seq<Header>)
    requires headers == AppendFresh(before, n, size, origin)
    ensures s == Recalc(Insert(before, k, Repeat(n, FreshHeader(size))), origin)
  {
    assert headers[..|before|] == before;
    var sunk := SinkHeaders(headers, k, n, size);
    RecalcInserted(sunk, before, k, n, size, origin);
    s := RecalcPixels(sunk, |sunk| - 1, origin);
    assert sunk[..|sunk|] == sunk && s[..|s|] == s;
  }

  /** The header part of DeleteRow and DeleteColumn, with the offsets recomputed. */
  method DeleteHeaders(headers: seq<Header>, max: int, k: nat, n: nat, origin: int) returns (s: seq<Header>)
    requires k + n <= max + 1 <= |headers|
    ensures |s| == |headers|
    ensures s[..max - n + 1] == Recalc(Delete(headers[..max + 1], k, n), origin)
  {
    s := RaiseHeaders(headers, max, k, n);
    s := RecalcPixels(s, max - n, origin);
  }

  lemma SetUpNext(s: seq<Header>, i: nat, max: int, size: nat, origin: int)
    requires i <= max < |s|
    ensures NextFresh(s[..i], size, origin) ==
            FreshHeader(size).(pixel := if i > 0 then s[i - 1].pixel + s[i - 1].size else origin)
    ensures AppendFresh(s[i := NextFresh(s[..i], size, origin)][..i + 1], max - i, size, origin) ==
            AppendFresh(s[..i], max + 1 - i, size, origin)
  {
    var t := s[i := NextFresh(s[..i], size, origin)];
    assert t[..i + 1] == s[..i] + [t[i]];
    AppendFreshNext(s[..i], max + 1 - i, size, origin);
  }

  /** The loop of AddRow and AddColumn that sets up the headers `from`..`max`. */
  method SetUpHeaders(headers: seq<Header>, from: nat, max: int, size: nat, origin: int) returns (s: seq<Header>)
    requires from <= max + 1 <= |headers|
    ensures |s| == |headers|
    ensures s[..max + 1] == AppendFresh(headers[..from], max + 1 - from, size, origin)
  {
    s := headers;
    var i := from;
    while i <= max
      invariant from <= i <= max + 1 <= |s| == |headers|
      invariant AppendFresh(s[..i], max + 1 - i, size, origin) == AppendFresh(headers[..from], max + 1 - from, size, origin)
    {
      SetUpNext(s, i, max, size, origin);
      var pixel := if i > 0 then s[i - 1].pixel + s[i - 1].size else origin;
      s := s[i := FreshHeader(size).(pixel := pixel)];
      i := i + 1;
    }
  }

  class Sheet {
    var row: seq<Header>
    var column: seq<Header>
    var data: seq<array?<Cell?>>
    var maxrow: int
    var maxcol: int
    var maxallocrow: int
    var maxalloccol: int
    const setup: Setup

    /** The row arrays and the cells that may be reached from `data`. */
    ghost var arrays: set<array<Cell?>>
    ghost var cells: set<Cell>

    /** Row arrays are distinct, and every live cell knows its own slot (so no cell has two). */
    ghost predicate Linked()
      reads this`data, this`maxallocrow, this`maxalloccol, this`arrays, this`cells, arrays, cells
    {
      && -1 <= maxallocrow < |data|
      && -1 <= maxalloccol
      && (forall i | 0 <= i <= maxallocrow :: data[i] != null && data[i] in arrays && maxalloccol < data[i].Length)
      && (forall i, k | 0 <= i < k <= maxallocrow :: data[i] != data[k])
      && (forall i, j | 0 <= i <= maxallocrow && 0 <= j <= maxalloccol ::
            data[i][j] != null ==> data[i][j] in cells && data[i][j].row == i && data[i][j].col == j)
    }

    /** gtk_sheet_new: rows and columns are counted from 0, and one slot more than (0, 0) is allocated each way. */
    constructor (rows: nat, columns: nat, su: Setup)
      requires rows >= 1 && columns >= 1
      ensures Store() && fresh(arrays) && fresh(cells)
      ensures setup == su && View() == NewModel(rows, columns, su)
      ensures Valid() <==> rows >= 2 && columns >= 2
    {
      setup := su;
      row, column := [FreshHeader(su.rowHeight)], [FreshHeader(DEFAULT_COLUMN_WIDTH)];
      maxrow, maxcol, maxallocrow, maxalloccol := 0, 0, 0, 0;
      var line := new Cell?[1](_ => null);
      data := [line];
      arrays, cells := {line}, {};
      new;
      SetUp(rows, columns);
    }

    /** The calls at the end of gtk_sheet_construct. */
    method SetUp(rows: nat, columns: nat)
      requires rows >= 1 && columns >= 1
      requires Store() && maxrow == maxcol == maxallocrow == maxalloccol == 0 && Slot(0, 0) == null
      modifies this
      ensures Store() && fresh(arrays - old(arrays)) && cells == old(cells)
      ensures View() == NewModel(rows, columns, setup)
      ensures Valid() <==> rows >= 2 && columns >= 2
    {
      GrowSheet(1, 1);
      assert forall r: int, c: int {:trigger Content(r, c)} :: Content(r, c) == (null, "");
      SetUpTitles(rows, columns);
      ShowsNew(rows, columns);
    }

    method SetUpTitles(rows: nat, columns: nat)
      requires rows >= 1 && columns >= 1
      requires maxrow == maxcol == 0 && |row| > 0 && |column| > 0
      modifies this`row, this`maxrow, this`column, this`maxcol
      ensures maxrow == rows - 1 && |row| == rows && maxcol == columns - 1 && |column| == columns
      ensures row[..rows] == AppendFresh([], rows, setup.rowHeight, setup.top)
      ensures column[..columns] == AppendFresh([], columns, DEFAULT_COLUMN_WIDTH, setup.left)
    {
      SetUpRows(rows);
      SetUpColumns(columns);
    }

    lemma ShowsNew(rows: nat, columns: nat)
      requires Store() && maxrow + 1 == rows && maxcol + 1 == columns && maxallocrow == maxalloccol == 1
      requires row[..rows] == AppendFresh([], rows, setup.rowHeight, setup.top)
      requires column[..columns] == AppendFresh([], columns, DEFAULT_COLUMN_WIDTH, setup.left)
      requires forall r: int, c: int {:trigger Content(r, c)} :: Content(r, c) == (null, "")
      ensures View() == NewModel(rows, columns, setup)
    {
      forall r: int, c: int ensures Text(r, c) == "" {
        assert Content(r, c) == (null, "");
      }
      ViewIs(NewModel(rows, columns, setup));
    }

    method SetUpRows(rows: nat)
      requires rows >= 1 && maxrow == 0 && |row| > 0
      modifies this`row, this`maxrow
      ensures maxrow == rows - 1 && |row| == rows
      ensures row[..maxrow + 1] == AppendFresh([], rows, setup.rowHeight, setup.top)
    {
      AddRow(-1);
      AddRow(rows - 1);
      AppendFreshTwice(1, rows - 1, setup.rowHeight, setup.top);
    }

    method SetUpColumns(columns: nat)
      requires columns >= 1 && maxcol == 0 && |column| > 0
      modifies this`column, this`maxcol
      ensures maxcol == columns - 1 && |column| == columns
      ensures column[..maxcol + 1] == AppendFresh([], columns, DEFAULT_COLUMN_WIDTH, setup.left)
    {
      AddColumn(-1);
      AddColumn(columns - 1);
      AppendFreshTwice(1, columns - 1, DEFAULT_COLUMN_WIDTH, setup.left);
    }

    ghost predicate Store()
      reads this, arrays, cells
    {
      Linked() && -1 <= maxrow < |row| && -1 <= maxcol < |column|
    }

    /** The store never reaches beyond the sheet. */
    ghost predicate Valid()
      reads this, arrays, cells
    {
      Store() && maxallocrow <= maxrow && maxalloccol <= maxcol
    }

    ghost function Slot(r: int, c: int): Cell?
      requires Linked()
      reads this`data, this`maxallocrow, this`maxalloccol, this`arrays, this`cells, arrays, cells
    {
      if 0 <= r <= maxallocrow && 0 <= c <= maxalloccol then data[r][c] else null
    }

    ghost function Text(r: int, c: int): string
      requires Linked()
      reads this`data, this`maxallocrow, this`maxalloccol, this`arrays, this`cells, arrays, cells
    {
      var cell := Slot(r, c);
      if cell == null || cell.text == None then "" else cell.text.value
    }

    /** A slot's cell together with its text. */
    ghost function Content(r: int, c: int): (Cell?, string)
      requires Linked()
      reads this`data, this`maxallocrow, this`maxalloccol, this`arrays, this`cells, arrays, cells
    {
      (Slot(r, c), Text(r, c))
    }

    ghost function View(): Model
      requires Store()
      reads this, arrays, cells
    {
      Model(row[..maxrow + 1], column[..maxcol + 1],
            seq(maxrow + 1, r requires Store() reads this, arrays, cells =>
              seq(maxcol + 1, c requires Store() reads this, arrays, cells => Text(r, c))),
            maxallocrow, maxalloccol)
    }

    /** The view is known once its parts are. */
    lemma ViewIs(m: Model)
      requires Store()
      requires m.rows == row[..maxrow + 1] && m.cols == column[..maxcol + 1]
      requires m.allocRow == maxallocrow && m.allocCol == maxalloccol
      requires Rectangle(m.grid, maxrow + 1, maxcol + 1)
      requires forall r: int, c: int | 0 <= r <= maxrow && 0 <= c <= maxcol :: Text(r, c) == m.grid[r][c]
      ensures View() == m
    {
      forall r | 0 <= r <= maxrow ensures View().grid[r] == m.grid[r] {
        assert forall c | 0 <= c <= maxcol :: View().grid[r][c] == Text(r, c);
      }
    }

    // ----- growing

    /** First half of GrowSheet: `newrows` row arrays, emptied up to the allocated column bound. */
    method GrowRows(newrows: nat)
      requires Store() && maxalloccol <= maxcol
      modifies this`data, this`maxallocrow, this`arrays
      ensures Store()
      ensures maxallocrow == old(maxallocrow) + newrows
      ensures fresh(arrays - old(arrays)) && old(arrays) <= arrays
      ensures forall r: int, c: int {:trigger Content(r, c)} :: Content(r, c) == old(Content(r, c))
    {
      if newrows == 0 { return; }
      var inirow, inicol := maxallocrow + 1, maxalloccol + 1;
      maxallocrow := maxallocrow + newrows;
      data := Resized(data, maxallocrow + 1, null);
      var i := inirow;
      while i <= maxallocrow
        invariant inirow <= i <= maxallocrow + 1 == |data|
        invariant maxallocrow == old(maxallocrow) + newrows
        invariant fresh(arrays - old(arrays)) && old(arrays) <= arrays
        invariant forall p | 0 <= p < inirow :: data[p] == old(data[p])
        invariant forall p | inirow <= p < i ::
                    data[p] != null && data[p] in arrays && fresh(data[p]) && inicol <= data[p].Length
        invariant forall p, j | inirow <= p < i && 0 <= j < inicol :: data[p][j] == null
        invariant forall p, q | 0 <= p < q < i :: data[p] != data[q]
      {
        var line := new Cell?[maxcol + 1];
        for j := 0 to inicol
          invariant forall q | 0 <= q < j :: line[q] == null
          modifies line
        {
          line[j] := null;
        }
        data := data[i := line];
        arrays := arrays + {line};
        i := i + 1;
      }
    }

    /** Second half of GrowSheet: every row array widened by `newcols` empty slots. */
    method GrowColumns(newcols: nat)
      requires Linked()
      modifies this`data, this`maxalloccol, this`arrays
      ensures Linked()
      ensures maxalloccol == old(maxalloccol) + newcols
      ensures fresh(arrays - old(arrays)) && old(arrays) <= arrays
      ensures forall r: int, c: int {:trigger Content(r, c)} :: Content(r, c) == old(Content(r, c))
    {
      if newcols == 0 { return; }
      var inicol := maxalloccol + 1;
      maxalloccol := maxalloccol + newcols;
      var i := 0;
      while i <= maxallocrow
        invariant 0 <= i <= maxallocrow + 1 <= |data| == old(|data|)
        invariant maxalloccol == old(maxalloccol) + newcols
        invariant fresh(arrays - old(arrays)) && old(arrays) <= arrays
        invariant forall p | 0 <= p < i ::
                    data[p] != null && data[p] in arrays && fresh(data[p]) && maxalloccol < data[p].Length
        invariant forall p, j | 0 <= p < i && 0 <= j <= maxalloccol ::
                    data[p][j] == if j < inicol then old(data[p][j]) else null
        invariant forall p | i <= p <= maxallocrow :: data[p] == old(data[p])
        invariant forall p, q | 0 <= p < q <= maxallocrow :: data[p] != data[q]
      {
        var line := new Cell?[maxalloccol + 1];
        forall j | 0 <= j < inicol { line[j] := data[i][j]; }
        for j := inicol to maxalloccol + 1
          invariant forall q | 0 <= q < inicol :: line[q] == data[i][q]
          invariant forall q | inicol <= q < j :: line[q] == null
          modifies line
        {
          line[j] := null;
        }
        data := data[i := line];
        arrays := arrays + {line};
        i := i + 1;
      }
    }

    method GrowSheet(newrows: nat, newcols: nat)
      requires Store() && maxalloccol <= maxcol
      modifies this`data, this`maxallocrow, this`maxalloccol, this`arrays
      ensures Store()
      ensures maxallocrow == old(maxallocrow) + newrows && maxalloccol == old(maxalloccol) + newcols
      ensures fresh(arrays - old(arrays)) && old(arrays) <= arrays
      ensures forall r: int, c: int {:trigger Content(r, c)} :: Content(r, c) == old(Content(r, c))
    {
      GrowRows(newrows);
      GrowColumns(newcols);
    }

    method CheckBounds(r: nat, c: nat)
      requires Valid() && r <= maxrow && c <= maxcol
      modifies this`data, this`maxallocrow, this`maxalloccol, this`arrays
      ensures Valid() && r <= maxallocrow && c <= maxalloccol
      ensures maxallocrow == Max(old(maxallocrow), r) && maxalloccol == Max(old(maxalloccol), c)
      ensures fresh(arrays - old(arrays)) && old(arrays) <= arrays
      ensures forall i: int, j: int :: Content(i, j) == old(Content(i, j))
    {
      var newrows, newcols := 0, 0;
      if c > maxalloccol { newcols := c - maxalloccol; }
      if r > maxallocrow { newrows := r - maxallocrow; }
      if newrows > 0 || newcols > 0 { GrowSheet(newrows, newcols); }
    }

    // ----- single cells

    /** gtk_sheet_cell_get_text: no text outside the sheet, outside the store, or when it is empty. */
    method GetText(r: int, c: int) returns (text: Option<string>)
      requires Valid()
      ensures text == if TextAt(View(), r, c) == "" then None else Some(TextAt(View(), r, c))
    {
      if c > maxcol || r > maxrow { return None; }
      if c < 0 || r < 0 { return None; }
      assert TextAt(View(), r, c) == Text(r, c);
      if r > maxallocrow || c > maxalloccol { return None; }
      if data[r] == null { return None; }
      if data[r][c] == null { return None; }
      if data[r][c].text == None { return None; }
      if |data[r][c].text.value| == 0 { return None; }
      return data[r][c].text;
    }

    /** gtk_sheet_real_cell_clear: the text goes; with `delete` the cell goes too. */
    method RealCellClear(r: nat, c: nat, delete: bool)
      requires Linked()
      modifies arrays, cells`text
      ensures Linked()
      ensures Text(r, c) == ""
      ensures Slot(r, c) == if delete then null else old(Slot(r, c))
      ensures forall i: int, j: int :: (i != r || j != c) ==> Content(i, j) == old(Content(i, j))
    {
      if r > maxallocrow || c > maxalloccol { return; }
      if data[r] == null { return; }
      var cell := data[r][c];
      if cell == null { return; }
      if cell.text != None && |cell.text.value| > 0 {
        cell.text := None;
      }
      if delete {
        data[r][c] := null;
      }
    }

    /** The cell of an allocated slot, made if need be, gets its position and its text. */
    method PutText(r: nat, c: nat, text: Option<string>)
      requires Linked() && r <= maxallocrow && c <= maxalloccol
      modifies this`cells, arrays, cells
      ensures Linked()
      ensures old(cells) <= cells && fresh(cells - old(cells))
      ensures Text(r, c) == if text == None then "" else text.value
      ensures forall i: int, j: int :: (i != r || j != c) ==> Content(i, j) == old(Content(i, j))
    {
      var cell := data[r][c];
      if cell == null {
        cell := new Cell();
        data[r][c] := cell;
        cells := cells + {cell};
      }
      cell.row := r;
      cell.col := c;
      cell.text := text;
    }

    /** gtk_sheet_set_cell, for the text. */
    method SetCell(r: int, c: int, text: Option<string>)
      requires Valid()
      modifies this`data, this`maxallocrow, this`maxalloccol, this`arrays, this`cells, arrays, cells
      ensures Valid()
      ensures fresh(arrays - old(arrays)) && fresh(cells - old(cells))
      ensures View() == SetText(old(View()), r, c, if text == None then "" else text.value)
    {
      if c > maxcol || r > maxrow { return; }
      if c < 0 || r < 0 { return; }
      CheckBounds(r, c);
      label Grown:
      PutText(r, c, text);
      ghost var m := SetText(old(View()), r, c, if text == None then "" else text.value);
      forall i, j | 0 <= i <= maxrow && 0 <= j <= maxcol ensures Text(i, j) == m.grid[i][j] {
        if i != r || j != c { assert Content(i, j) == old@Grown(Content(i, j)) == old(Content(i, j)); }
      }
      ViewIs(m);
    }

    /** gtk_sheet_cell_clear and gtk_sheet_cell_delete. */
    method CellClear(r: int, c: int, delete: bool)
      requires Valid()
      modifies arrays, cells`text
      ensures Valid()
      ensures View() == ClearRange(old(View()), Range(r, c, r, c))
    {
      ghost var m := ClearRange(View(), Range(r, c, r, c));
      if 0 <= r <= maxrow && 0 <= c <= maxcol && r <= maxallocrow && c <= maxalloccol {
        RealCellClear(r, c, delete);
      }
      forall i, j | 0 <= i <= maxrow && 0 <= j <= maxcol ensures Text(i, j) == m.grid[i][j] {
        if i != r || j != c { assert Content(i, j) == old(Content(i, j)); }
      }
      ViewIs(m);
    }

    /** The two loops of gtk_sheet_real_range_clear. */
    method ClearCells(clear: Range, delete: bool)
      requires Linked() && 0 <= clear.row0 && 0 <= clear.col0
      modifies arrays, cells`text
      ensures Linked()
      ensures forall r: int, c: int {:trigger Text(r, c)} :: Text(r, c) ==
                if clear.row0 <= r <= clear.rowi && clear.col0 <= c <= clear.coli then "" else old(Text(r, c))
    {
      var i := clear.row0;
      while i <= clear.rowi
        invariant Linked() && clear.row0 <= i
        invariant forall r: int, c: int :: Text(r, c) ==
                    if clear.row0 <= r < i && r <= clear.rowi && clear.col0 <= c <= clear.coli then "" else old(Text(r, c))
      {
        var j := clear.col0;
        while j <= clear.coli
          invariant Linked() && clear.col0 <= j
          invariant forall r: int, c: int :: Text(r, c) ==
                      if (clear.row0 <= r < i && clear.col0 <= c <= clear.coli) || (r == i && clear.col0 <= c < j && c <= clear.coli)
                      then "" else old(Text(r, c))
        {
          label Before:
          RealCellClear(i, j, delete);
          forall r, c ensures (r != i || c != j) ==> Text(r, c) == old@Before(Text(r, c)) {
            assert (r != i || c != j) ==> Content(r, c) == old@Before(Content(r, c));
          }
          j := j + 1;
        }
        i := i + 1;
      }
    }

    /** gtk_sheet_real_range_clear: `range == None` means everything that is allocated. */
    method RangeClear(range: Option<Range>, delete: bool)
      requires Valid()
      modifies arrays, cells`text
      ensures Valid()
      ensures View() == ClearRange(old(View()), if range == None then Range(0, 0, maxrow, maxcol) else range.value)
    {
      ghost var m := ClearRange(View(), if range == None then Range(0, 0, maxrow, maxcol) else range.value);
      var clear := if range == None then Range(0, 0, maxallocrow, maxalloccol) else range.value;
      clear := Range(Max(clear.row0, 0), Max(clear.col0, 0), Min(clear.rowi, maxallocrow), Min(clear.coli, maxalloccol));
      ClearCells(clear, delete);
      ViewIs(m);
    }

    // ----- rows

    /** AddRow; the sheet being built passes -1 to set up row 0, which it already counts. */
    method AddRow(nrows: int)
      requires -1 <= maxrow < |row|
      requires nrows >= 0 || (nrows == -1 && maxrow == 0)
      modifies this`row, this`maxrow
      ensures -1 <= maxrow < |row|
      ensures nrows >= 0 ==> maxrow == old(maxrow) + nrows && |row| == maxrow + 1
      ensures nrows >= 0 ==>
                row[..maxrow + 1] == AppendFresh(old(row[..maxrow + 1]), nrows, setup.rowHeight, setup.top)
      ensures nrows == -1 ==> maxrow == 0 && row[..1] == AppendFresh([], 1, setup.rowHeight, setup.top)
    {
      var n := nrows;
      if nrows == -1 && maxrow == 0 {
        n := 1;
      } else {
        maxrow := maxrow + nrows;
        row := Resized(row, maxrow + 1, FreshHeader(setup.rowHeight));
      }
      assert nrows >= 0 ==> row[..maxrow - n + 1] == old(row[..maxrow + 1]);
      assert nrows == -1 ==> row[..maxrow - n + 1] == [];
      row := SetUpHeaders(row, maxrow - n + 1, maxrow, setup.rowHeight, setup.top);
    }

    /** gtk_sheet_add_row. */
    method AddRows(nrows: nat)
      requires Valid()
      modifies this`row, this`maxrow
      ensures Valid()
      ensures View() == SheetSpec.AddRows(old(View()), nrows, setup)
    {
      ghost var before := View();
      assert forall r: int, c: int {:trigger Content(r, c)} :: Content(r, c).1 == TextAt(before, r, c);
      AddRow(nrows);
      ShowsAddedRows(before, nrows);
    }

    lemma ShowsAddedRows(before: Model, n: nat)
      requires Store() && Rectangle(before.grid, |before.rows|, |before.cols|)
      requires maxrow + 1 == |before.rows| + n && row[..maxrow + 1] == SheetSpec.AddRows(before, n, setup).rows
      requires column[..maxcol + 1] == before.cols && maxallocrow == before.allocRow && maxalloccol == before.allocCol
      requires forall r: int, c: int {:trigger Content(r, c)} :: Content(r, c).1 == TextAt(before, r, c)
      ensures View() == SheetSpec.AddRows(before, n, setup)
    {
      var m := SheetSpec.AddRows(before, n, setup);
      forall r: int, c: int | 0 <= r <= maxrow && 0 <= c <= maxcol ensures Text(r, c) == m.grid[r][c] {
        assert Text(r, c) == Content(r, c).1;
      }
      ViewIs(m);
    }

    /** Row array `src` becomes row `dst`, whose emptied array takes its place; the cells that moved are renumbered. */
    method MoveRow(dst: nat, src: nat)
      requires Linked() && dst <= maxallocrow && src <= maxallocrow
      requires dst != src ==> forall c :: Slot(dst, c) == null
      modifies this`data, cells`row
      ensures Linked() && |data| == old(|data|)
      ensures forall c {:trigger Content(dst, c)} :: Content(dst, c) == old(Content(src, c))
      ensures dst != src ==> forall c {:trigger Content(src, c)} :: Content(src, c) == (null, "")
      ensures forall r: int, c: int {:trigger Content(r, c)} :: r != dst && r != src ==> Content(r, c) == old(Content(r, c))
    {
      ExchangeRows(dst, src);
      forall r: int, c: int ensures Content(r, c) == old(Content(Exchanged(r, dst, src), c)) {
        assert Slot(r, c) == old(Slot(Exchanged(r, dst, src), c));
      }
    }

    function Exchanged(r: int, dst: int, src: int): int {
      if r == dst then src else if r == src then dst else r
    }

    method ExchangeRows(dst: nat, src: nat)
      requires Linked() && dst <= maxallocrow && src <= maxallocrow
      requires dst != src ==> forall c :: Slot(dst, c) == null
      modifies this`data, cells`row
      ensures Linked() && |data| == old(|data|)
      ensures forall r: int, c: int {:trigger Slot(r, c)} :: Slot(r, c) == old(Slot(Exchanged(r, dst, src), c))
    {
      var auxdata := data[dst];
      data := data[dst := data[src]];
      assert forall q | 0 <= q <= maxalloccol :: data[dst][q] == old(Slot(src, q));
      Renumber(data[dst], dst, src);
      data := data[src := auxdata];
      assert forall p, q | 0 <= p <= maxallocrow && 0 <= q <= maxalloccol ::
          data[p][q] == old(Slot(Exchanged(p, dst, src), q));
    }

    /** The inner loop over a row array that has moved from `src` to `dst`. */
    method Renumber(line: array<Cell?>, dst: nat, src: nat)
      requires -1 <= maxalloccol < line.Length
      requires forall q | 0 <= q <= maxalloccol :: line[q] != null ==> line[q] in cells && line[q].row == src
      modifies cells`row
      ensures forall q | 0 <= q <= maxalloccol :: line[q] != null ==> line[q].row == dst
      ensures forall x | x in cells :: x.row == old(x.row) || (old(x.row) == src && x.row == dst)
    {
      for j := 0 to maxalloccol + 1
        invariant forall q | 0 <= q < j :: line[q] != null ==> line[q].row == dst
        invariant forall x | x in cells :: x.row == old(x.row) || (old(x.row) == src && x.row == dst)
      {
        if line[j] != null { line[j].row := dst; }
      }
    }

    lemma RowIsFree(i: nat)
      requires Linked() && forall c: int {:trigger Content(i, c)} :: Content(i, c) == (null, "")
      ensures forall c :: Slot(i, c) == null
    {
      forall c ensures Slot(i, c) == null { assert Content(i, c) == (null, ""); }
    }

    /** The data half of InsertRow: the row arrays from `k` on sink by `n`, the fresh ones rise into the gap. */
    method SinkRows(k: nat, n: nat)
      requires Store() && maxalloccol <= maxcol
      modifies this`data, this`maxallocrow, this`maxalloccol, this`arrays, cells`row
      ensures Store()
      ensures maxallocrow == old(maxallocrow) + (if k <= old(maxallocrow) then n else 0) && maxalloccol == old(maxalloccol)
      ensures fresh(arrays - old(arrays))
      ensures forall r: int, c: int {:trigger Content(r, c)} :: Content(r, c) ==
                (if r < k then old(Content(r, c)) else if r < k + n then (null, "") else old(Content(r - n, c)))
    {
      if k > maxallocrow { return; }
      GrowSheet(n, 0);
      var i := maxallocrow;
      while i >= k + n
        invariant k + n - 1 <= i <= maxallocrow
        invariant Linked()
        invariant forall r: int, c: int {:trigger Content(r, c)} :: Content(r, c) ==
                    if r > i then old(Content(r - n, c))
                    else if r < k || r <= i - n then old(Content(r, c))
                    else (null, "")
        modifies this`data, cells`row
      {
        if n > 0 { RowIsFree(i); }
        MoveRow(i, i - n);
        i := i - 1;
      }
    }

    /** The header half of InsertRow, with the final recomputation of the offsets. */
    method InsertRowHeaders(k: nat, n: nat)
      requires -1 <= maxrow < |row|
      modifies this`row, this`maxrow
      ensures -1 <= maxrow < |row|
      ensures maxrow == old(maxrow) + n
      ensures row[..maxrow + 1] ==
              Recalc(Insert(old(row[..maxrow + 1]), k, Repeat(n, FreshHeader(setup.rowHeight))), setup.top)
    {
      ghost var before := row[..maxrow + 1];
      AddRow(n);
      assert row == row[..maxrow + 1];
      row := InsertHeaders(row, before, k, n, setup.rowHeight, setup.top);
      assert row == row[..maxrow + 1];
    }

    /** Both halves of InsertRow. */
    method InsertRowParts(k: nat, n: nat)
      requires Valid()
      modifies this`row, this`maxrow, this`data, this`maxallocrow, this`maxalloccol, this`arrays, cells`row
      ensures Valid() && fresh(arrays - old(arrays))
      ensures maxrow == old(maxrow) + n && maxalloccol == old(maxalloccol)
      ensures maxallocrow == old(maxallocrow) + (if k <= old(maxallocrow) then n else 0)
      ensures row[..maxrow + 1] ==
              Recalc(Insert(old(row[..maxrow + 1]), k, Repeat(n, FreshHeader(setup.rowHeight))), setup.top)
      ensures forall r: int, c: int {:trigger Content(r, c)} :: Content(r, c) ==
                (if r < k then old(Content(r, c)) else if r < k + n then (null, "") else old(Content(r - n, c)))
    {
      InsertRowHeaders(k, n);
      SinkRows(k, n);
    }

    method InsertRow(k: nat, n: nat)
      requires Valid()
      modifies this`row, this`maxrow, this`data, this`maxallocrow, this`maxalloccol, this`arrays, cells`row
      ensures Valid()
      ensures fresh(arrays - old(arrays))
      ensures View() == InsertRows(old(View()), k, n, setup)
      ensures forall r: int, c: int {:trigger Content(r, c)} :: Content(r, c) ==
                (if r < k then old(Content(r, c)) else if r < k + n then (null, "") else old(Content(r - n, c)))
    {
      ghost var before := View();
      assert forall r: int, c: int {:trigger Content(r, c)} :: Content(r, c).1 == TextAt(before, r, c);
      InsertRowParts(k, n);
      ShowsInsertedRows(before, k, n);
    }

    lemma ShowsInsertedRows(before: Model, k: nat, n: nat)
      requires Store() && Rectangle(before.grid, |before.rows|, |before.cols|)
      requires maxrow + 1 == |before.rows| + n
      requires column[..maxcol + 1] == before.cols && maxalloccol == before.allocCol
      requires row[..maxrow + 1] == InsertRows(before, k, n, setup).rows
      requires maxallocrow == InsertRows(before, k, n, setup).allocRow
      requires forall r: int, c: int {:trigger Content(r, c)} :: Content(r, c).1 ==
                 (if r < k then TextAt(before, r, c) else if r < k + n then "" else TextAt(before, r - n, c))
      ensures View() == InsertRows(before, k, n, setup)
    {
      var m := InsertRows(before, k, n, setup);
      InsertedRowText(before, k, n, setup, 0, 0);
      forall r: int, c: int | 0 <= r <= maxrow && 0 <= c <= maxcol ensures Text(r, c) == m.grid[r][c] {
        InsertedRowText(before, k, n, setup, r, c);
        assert Text(r, c) == Content(r, c).1;
        assert m.grid[r][c] == TextAt(m, r, c);
      }
      ViewIs(m);
    }

    // ----- deleting rows

    method ClearRow(i: nat)
      requires Linked() && i <= maxallocrow
      modifies arrays, cells`text
      ensures Linked()
      ensures forall c: int :: Content(i, c) == (null, "")
      ensures forall r: int, c: int {:trigger Content(r, c)} :: r != i ==> Content(r, c) == old(Content(r, c))
    {
      for j := 0 to maxalloccol + 1
        invariant Linked()
        invariant forall c: int :: c < j ==> Content(i, c) == (null, "")
        invariant forall r: int, c: int {:trigger Content(r, c)} :: r != i ==> Content(r, c) == old(Content(r, c))
      {
        RealCellClear(i, j, true);
      }
    }

    /** The data loop of DeleteRow: row by row, clear the row and exchange it with the one `n` further on. */
    method RaiseRows(k: nat, n: nat)
      requires Valid() && 0 < n && k + n <= maxrow + 1
      modifies this`data, arrays, cells`text, cells`row
      ensures Linked()
      ensures forall r: int, c: int {:trigger Content(r, c)} :: r <= maxrow - n ==>
                Content(r, c) == (if r < k then old(Content(r, c)) else old(Content(r + n, c)))
    {
      var i := k;
      while i <= maxrow - n
        invariant k <= i <= maxrow - n + 1
        invariant Linked()
        invariant forall r: int, c: int {:trigger Content(r, c)} :: Content(r, c) ==
                    if r < k then old(Content(r, c))
                    else if r < i then old(Content(r + n, c))
                    else if k + n <= r < i + n then (null, "")
                    else old(Content(r, c))
      {
        if i <= maxallocrow { ClearRow(i); }
        if i + n <= maxallocrow {
          assert forall c: int :: Slot(i, c) == Content(i, c).0;
          MoveRow(i, i + n);
        }
        i := i + 1;
      }
    }

    /** The end of DeleteRow: the row arrays no row needs any more are freed, and the bound is lowered. */
    method TrimRows(k: nat, n: nat)
      requires Valid() && 0 < n && k + n <= maxrow + 1 && k <= maxallocrow
      modifies this`data, this`maxallocrow
      ensures Linked()
      ensures maxallocrow == ShrunkBound(old(maxallocrow), k, n) <= maxrow - n
      ensures forall r: int, c: int {:trigger Content(r, c)} :: r <= maxallocrow ==> Content(r, c) == old(Content(r, c))
    {
      var i := maxrow - n + 1;
      while i <= maxallocrow
        invariant maxrow - n + 1 <= i && |data| == old(|data|) && maxallocrow == old(maxallocrow)
        invariant forall p | 0 <= p <= maxrow - n && p < |data| :: data[p] == old(data[p])
      {
        if i > 0 && data[i] != null { data := data[i := null]; }
        i := i + 1;
      }
      maxallocrow := maxallocrow - Min(n, maxallocrow - k + 1);
      maxallocrow := Min(maxallocrow, maxrow);
    }

    method DeleteRowData(k: nat, n: nat)
      requires Valid() && 0 < n && k + n <= maxrow + 1
      modifies this`data, this`maxallocrow, arrays, cells`text, cells`row
      ensures Store() && -1 <= maxalloccol <= maxcol
      ensures maxallocrow == ShrunkBound(old(maxallocrow), k, n) <= maxrow - n
      ensures forall r: int, c: int {:trigger Content(r, c)} ::
                Content(r, c) == (if r < k then old(Content(r, c)) else old(Content(r + n, c)))
    {
      if k > maxallocrow { return; }
      RaiseRows(k, n);
      TrimRows(k, n);
    }

    /** The header half of DeleteRow, with the final recomputation of the offsets. */
    method DeleteRowHeaders(k: nat, n: nat)
      requires -1 <= maxrow < |row| && k + n <= maxrow + 1
      modifies this`row, this`maxrow
      ensures -1 <= maxrow < |row|
      ensures maxrow == old(maxrow) - n
      ensures row[..maxrow + 1] == Recalc(Delete(old(row[..maxrow + 1]), k, n), setup.top)
    {
      row := DeleteHeaders(row, maxrow, k, n, setup.top);
      maxrow := maxrow - n;
    }

    /** Both halves of DeleteRow. */
    method DeleteRowParts(k: nat, n: nat)
      requires Valid() && 0 < n && k + n <= maxrow + 1
      modifies this`row, this`maxrow, this`data, this`maxallocrow, arrays, cells`text, cells`row
      ensures Valid()
      ensures maxrow == old(maxrow) - n && maxallocrow == ShrunkBound(old(maxallocrow), k, n)
      ensures row[..maxrow + 1] == Recalc(Delete(old(row[..maxrow + 1]), k, n), setup.top)
      ensures forall r: int, c: int {:trigger Content(r, c)} :: Content(r, c) ==
                (if r < k then old(Content(r, c)) else old(Content(r + n, c)))
    {
      DeleteRowData(k, n);
      DeleteRowHeaders(k, n);
    }

    /** DeleteRow once the band is known to lie inside the sheet. */
    method DeleteRowBand(k: nat, n: nat)
      requires Valid() && 0 < n && k + n <= maxrow + 1
      modifies this`row, this`maxrow, this`data, this`maxallocrow, arrays, cells`text, cells`row
      ensures Valid()
      ensures View() == DeleteRows(old(View()), k, n, setup)
      ensures forall r: int, c: int {:trigger Content(r, c)} ::
                Content(r, c) == (if r < k then old(Content(r, c)) else old(Content(r + n, c)))
    {
      ghost var before := View();
      assert forall r: int, c: int {:trigger Content(r, c)} :: Content(r, c).1 == TextAt(before, r, c);
      DeleteRowParts(k, n);
      ShowsDeletedRows(before, k, n);
    }

    lemma ShowsDeletedRows(before: Model, k: nat, n: nat)
      requires Store() && Rectangle(before.grid, |before.rows|, |before.cols|)
      requires 0 < n && k + n <= |before.rows| == maxrow + 1 + n
      requires row[..maxrow + 1] == Recalc(Delete(before.rows, k, n), setup.top)
      requires maxallocrow == ShrunkBound(before.allocRow, k, n)
      requires column[..maxcol + 1] == before.cols && maxalloccol == before.allocCol
      requires forall r: int, c: int {:trigger Content(r, c)} ::
                 Content(r, c).1 == TextAt(before, if r < k then r else r + n, c)
      ensures View() == DeleteRows(before, k, n, setup)
    {
      var m := DeleteRows(before, k, n, setup);
      DeletedRowText(before, k, n, setup, 0, 0);
      forall r: int, c: int | 0 <= r <= maxrow && 0 <= c <= maxcol ensures Text(r, c) == m.grid[r][c] {
        DeletedRowText(before, k, n, setup, r, c);
        assert Text(r, c) == Content(r, c).1;
        assert m.grid[r][c] == TextAt(m, r, c);
      }
      ViewIs(m);
    }

    lemma BeyondTheSheet()
      requires Valid()
      ensures forall r: int, c: int {:trigger Content(r, c)} :: r > maxrow || c > maxcol ==> Content(r, c) == (null, "")
    {
    }

    /** The band begins inside the sheet; it is cut at the end. */
    method DeleteRowsInside(k: nat, nrows: nat)
      requires Valid() && 0 < nrows && k <= maxrow
      modifies this`row, this`maxrow, this`data, this`maxallocrow, arrays, cells`text, cells`row
      ensures Valid()
      ensures View() == DeleteRows(old(View()), k, nrows, setup)
      ensures forall r: int, c: int {:trigger Content(r, c)} ::
                Content(r, c) == (if r < k then old(Content(r, c)) else old(Content(r + nrows, c)))
    {
      var n := Min(nrows, maxrow - k + 1);
      DeleteRowsCapped(View(), k, nrows, setup);
      BeyondTheSheet();
      DeleteRowBand(k, n);
    }

    method DeleteRow(k: nat, nrows: nat)
      requires Valid()
      modifies this`row, this`maxrow, this`data, this`maxallocrow, arrays, cells`text, cells`row
      ensures Valid()
      ensures View() == DeleteRows(old(View()), k, nrows, setup)
      ensures forall r: int, c: int {:trigger Content(r, c)} ::
                Content(r, c) == (if r < k then old(Content(r, c)) else old(Content(r + nrows, c)))
    {
      if nrows <= 0 || k > maxrow { return; }
      DeleteRowsInside(k, nrows);
    }

    // ----- columns

    /** AddColumn; the sheet being built passes -1 to set up column 0, which it already counts. */
    method AddColumn(ncols: int)
      requires -1 <= maxcol < |column|
      requires ncols >= 0 || (ncols == -1 && maxcol == 0)
      modifies this`column, this`maxcol
      ensures -1 <= maxcol < |column|
      ensures ncols >= 0 ==> maxcol == old(maxcol) + ncols && |column| == maxcol + 1
      ensures ncols >= 0 ==>
                column[..maxcol + 1] == AppendFresh(old(column[..maxcol + 1]), ncols, DEFAULT_COLUMN_WIDTH, setup.left)
      ensures ncols == -1 ==> maxcol == 0 && column[..1] == AppendFresh([], 1, DEFAULT_COLUMN_WIDTH, setup.left)
    {
      var n := ncols;
      if ncols == -1 && maxcol == 0 {
        n := 1;
      } else {
        maxcol := maxcol + ncols;
        column := Resized(column, maxcol + 1, FreshHeader(DEFAULT_COLUMN_WIDTH));
      }
      assert ncols >= 0 ==> column[..maxcol - n + 1] == old(column[..maxcol + 1]);
      assert ncols == -1 ==> column[..maxcol - n + 1] == [];
      column := SetUpHeaders(column, maxcol - n + 1, maxcol, DEFAULT_COLUMN_WIDTH, setup.left);
    }

    /** gtk_sheet_add_column. */
    method AddColumns(ncols: nat)
      requires Valid()
      modifies this`column, this`maxcol
      ensures Valid()
      ensures View() == SheetSpec.AddColumns(old(View()), ncols, setup)
    {
      ghost var before := View();
      ghost var m := SheetSpec.AddColumns(before, ncols, setup);
      assert forall r | 0 <= r < |m.grid| :: m.grid[r] == before.grid[r] + Repeat(ncols, "");
      AddColumn(ncols);
      ViewIs(m);
    }

    /** The cell of slot (`r`, `src`) moves to (`r`, `dst`) and is renumbered. */
    method MoveCell(r: nat, dst: nat, src: nat)
      requires Linked() && r <= maxallocrow && dst <= maxalloccol && src <= maxalloccol
      requires Slot(r, dst) == null
      modifies arrays, cells`col
      ensures Linked()
      ensures dst != src ==> Content(r, dst) == old(Content(r, src))
      ensures Content(r, src) == (null, "")
      ensures forall i: int, j: int {:trigger Content(i, j)} ::
                (i == r && (j == dst || j == src)) || Content(i, j) == old(Content(i, j))
    {
      data[r][dst] := data[r][src];
      if data[r][dst] != null { data[r][dst].col := dst; }
      data[r][src] := null;
    }

    /** One row of the data loop of InsertColumn: with `n == 0` every cell from `k` on is cleared instead of moved. */
    method SinkCells(r: nat, k: nat, n: nat)
      requires Linked() && r <= maxallocrow && k + n <= maxalloccol + 1
      requires forall c: int {:trigger Content(r, c)} :: maxalloccol - n < c ==> Content(r, c) == (null, "")
      modifies arrays, cells`text, cells`col
      ensures Linked()
      ensures forall c: int {:trigger Content(r, c)} :: Content(r, c) ==
                (if c < k then old(Content(r, c)) else if c < k + n || n == 0 then (null, "") else old(Content(r, c - n)))
      ensures forall i: int, c: int {:trigger Content(i, c)} :: i == r || Content(i, c) == old(Content(i, c))
    {
      var j := maxalloccol;
      while j >= k + n
        invariant k + n - 1 <= j <= maxalloccol
        invariant Linked()
        invariant forall c: int {:trigger Content(r, c)} :: Content(r, c) ==
                    if c > j then (if n == 0 then (null, "") else old(Content(r, c - n)))
                    else if c < k || c <= j - n then old(Content(r, c))
                    else (null, "")
        invariant forall i: int, c: int {:trigger Content(i, c)} :: i == r || Content(i, c) == old(Content(i, c))
      {
        // the clearing below never meets a live cell unless nothing is inserted
        assert n > 0 ==> Content(r, j) == (null, "");
        RealCellClear(r, j, true);
        MoveCell(r, j, j - n);
        j := j - 1;
      }
    }

    /** The data half of InsertColumn. */
    method SinkColumns(k: nat, n: nat)
      requires Store() && maxalloccol <= maxcol
      modifies this`data, this`maxallocrow, this`maxalloccol, this`arrays, arrays, cells`text, cells`col
      ensures Store()
      ensures maxallocrow == old(maxallocrow)
      ensures maxalloccol == old(maxalloccol) + (if k <= old(maxalloccol) then n else 0)
      ensures fresh(arrays - old(arrays))
      ensures forall r: int, c: int {:trigger Content(r, c)} :: Content(r, c) ==
                (if c < k then old(Content(r, c)) else if c < k + n || n == 0 then (null, "") else old(Content(r, c - n)))
    {
      if k > maxalloccol { return; }
      GrowSheet(0, n);
      for i := 0 to maxallocrow + 1
        invariant Linked() && maxallocrow == old(maxallocrow) && maxalloccol == old(maxalloccol) + n
        invariant fresh(arrays - old(arrays))
        invariant forall r: int, c: int {:trigger Content(r, c)} :: Content(r, c) ==
                    if r >= i || c < k then old(Content(r, c))
                    else if c < k + n || n == 0 then (null, "")
                    else old(Content(r, c - n))
      {
        SinkCells(i, k, n);
      }
    }

    /** The header half of InsertColumn, with the final recomputation of the offsets. */
    method InsertColumnHeaders(k: nat, n: nat)
      requires -1 <= maxcol < |column|
      modifies this`column, this`maxcol
      ensures -1 <= maxcol < |column|
      ensures maxcol == old(maxcol) + n
      ensures column[..maxcol + 1] ==
              Recalc(Insert(old(column[..maxcol + 1]), k, Repeat(n, FreshHeader(DEFAULT_COLUMN_WIDTH))), setup.left)
    {
      ghost var before := column[..maxcol + 1];
      AddColumn(n);
      assert column == column[..maxcol + 1];
      column := InsertHeaders(column, before, k, n, DEFAULT_COLUMN_WIDTH, setup.left);
      assert column == column[..maxcol + 1];
    }

    /** Both halves of InsertColumn. */
    method InsertColumnParts(k: nat, n: nat)
      requires Valid()
      modifies this`column, this`maxcol, this`data, this`maxallocrow, this`maxalloccol, this`arrays
      modifies arrays, cells`text, cells`col
      ensures Valid() && fresh(arrays - old(arrays))
      ensures maxcol == old(maxcol) + n && maxallocrow == old(maxallocrow)
      ensures maxalloccol == old(maxalloccol) + (if k <= old(maxalloccol) then n else 0)
      ensures column[..maxcol + 1] ==
              Recalc(Insert(old(column[..maxcol + 1]), k, Repeat(n, FreshHeader(DEFAULT_COLUMN_WIDTH))), setup.left)
      ensures forall r: int, c: int {:trigger Content(r, c)} :: Content(r, c) ==
                (if c < k then old(Content(r, c)) else if c < k + n || n == 0 then (null, "") else old(Content(r, c - n)))
    {
      InsertColumnHeaders(k, n);
      SinkColumns(k, n);
    }

    /** Inserting no column at all is not harmless: it empties every column from `k` on. */
    method InsertColumn(k: nat, n: nat)
      requires Valid()
      modifies this`column, this`maxcol, this`data, this`maxallocrow, this`maxalloccol, this`arrays
      modifies arrays, cells`text, cells`col
      ensures Valid()
      ensures fresh(arrays - old(arrays))
      ensures View() == InsertColumns(if n > 0 then old(View()) else EmptiedFrom(old(View()), k), k, n, setup)
      ensures forall r: int, c: int {:trigger Content(r, c)} :: Content(r, c) ==
                (if c < k then old(Content(r, c)) else if c < k + n || n == 0 then (null, "") else old(Content(r, c - n)))
    {
      ghost var before := View();
      assert forall r: int, c: int {:trigger Content(r, c)} :: Content(r, c).1 == TextAt(before, r, c);
      InsertColumnParts(k, n);
      ShowsInsertedColumns(before, k, n);
    }

    lemma ShowsInsertedColumns(before: Model, k: nat, n: nat)
      requires Store() && Rectangle(before.grid, |before.rows|, |before.cols|)
      requires maxcol + 1 == |before.cols| + n
      requires row[..maxrow + 1] == before.rows && maxallocrow == before.allocRow
      requires column[..maxcol + 1] == InsertColumns(before, k, n, setup).cols
      requires maxalloccol == InsertColumns(before, k, n, setup).allocCol
      requires forall r: int, c: int {:trigger Content(r, c)} :: Content(r, c).1 ==
                 (if c < k then TextAt(before, r, c) else if c < k + n || n == 0 then "" else TextAt(before, r, c - n))
      ensures View() == InsertColumns(if n > 0 then before else EmptiedFrom(before, k), k, n, setup)
    {
      var shown := if n > 0 then before else EmptiedFrom(before, k);
      var m := InsertColumns(shown, k, n, setup);
      InsertedColumnText(shown, k, n, setup, 0, 0);
      forall r: int, c: int | 0 <= r <= maxrow && 0 <= c <= maxcol ensures Text(r, c) == m.grid[r][c] {
        InsertedColumnText(shown, k, n, setup, r, c);
        assert Text(r, c) == Content(r, c).1;
        assert m.grid[r][c] == TextAt(m, r, c);
      }
      ViewIs(m);
    }

    // ----- deleting columns

    /** One column of the data loop of DeleteColumn. */
    method RaiseColumn(i: nat, n: nat)
      requires Linked() && i <= maxalloccol && n > 0
      modifies arrays, cells`text, cells`col
      ensures Linked()
      ensures forall r: int, c: int {:trigger Content(r, c)} :: Content(r, c) ==
                (if c == i then old(Content(r, c + n)) else if c == i + n then (null, "") else old(Content(r, c)))
    {
      for j := 0 to maxallocrow + 1
        invariant Linked()
        invariant forall r: int, c: int {:trigger Content(r, c)} :: Content(r, c) ==
                    if r >= j then old(Content(r, c))
                    else if c == i then old(Content(r, c + n))
                    else if c == i + n then (null, "")
                    else old(Content(r, c))
      {
        RealCellClear(j, i, true);
        if i + n <= maxalloccol { MoveCell(j, i, i + n); }
      }
    }

    /** The data half of DeleteColumn. */
    method DeleteColumnData(k: nat, n: nat)
      requires Valid() && 0 < n && k + n <= maxcol + 1
      modifies this`maxalloccol, arrays, cells`text, cells`col
      ensures Linked()
      ensures maxalloccol == ShrunkBound(old(maxalloccol), k, n) <= maxcol - n
      ensures forall r: int, c: int {:trigger Content(r, c)} ::
                Content(r, c) == (if c < k then old(Content(r, c)) else old(Content(r, c + n)))
    {
      if k > maxalloccol { return; }
      var i := k;
      while i <= maxcol - n
        invariant k <= i <= maxcol - n + 1
        invariant Linked() && maxalloccol == old(maxalloccol)
        invariant forall r: int, c: int {:trigger Content(r, c)} :: Content(r, c) ==
                    if c < k then old(Content(r, c))
                    else if c < i then old(Content(r, c + n))
                    else if k + n <= c < i + n then (null, "")
                    else old(Content(r, c))
      {
        if i <= maxalloccol { RaiseColumn(i, n); }
        i := i + 1;
      }
      LowerColumnBound(k, n);
    }

    method LowerColumnBound(k: nat, n: nat)
      requires Valid() && 0 < n && k + n <= maxcol + 1 && k <= maxalloccol
      modifies this`maxalloccol
      ensures Linked()
      ensures maxalloccol == ShrunkBound(old(maxalloccol), k, n) <= maxcol - n
      ensures forall r: int, c: int {:trigger Content(r, c)} :: 
                Content(r, c) == if c <= maxalloccol then old(Content(r, c)) else (null, "")
    {
      maxalloccol := maxalloccol - Min(n, maxalloccol - k + 1);
      maxalloccol := Min(maxalloccol, maxcol);
    }

    /** The header half of DeleteColumn, with the final recomputation of the offsets. */
    method DeleteColumnHeaders(k: nat, n: nat)
      requires -1 <= maxcol < |column| && k + n <= maxcol + 1
      modifies this`column, this`maxcol
      ensures -1 <= maxcol < |column|
      ensures maxcol == old(maxcol) - n
      ensures column[..maxcol + 1] == Recalc(Delete(old(column[..maxcol + 1]), k, n), setup.left)
    {
      column := DeleteHeaders(column, maxcol, k, n, setup.left);
      maxcol := maxcol - n;
    }

    /** Both halves of DeleteColumn. */
    method DeleteColumnParts(k: nat, n: nat)
      requires Valid() && 0 < n && k + n <= maxcol + 1
      modifies this`column, this`maxcol, this`maxalloccol, arrays, cells`text, cells`col
      ensures Valid()
      ensures maxcol == old(maxcol) - n && maxalloccol == ShrunkBound(old(maxalloccol), k, n)
      ensures column[..maxcol + 1] == Recalc(Delete(old(column[..maxcol + 1]), k, n), setup.left)
      ensures forall r: int, c: int {:trigger Content(r, c)} :: Content(r, c) ==
                (if c < k then old(Content(r, c)) else old(Content(r, c + n)))
    {
      DeleteColumnData(k, n);
      DeleteColumnHeaders(k, n);
    }

    /** DeleteColumn once the band is known to lie inside the sheet. */
    method DeleteColumnBand(k: nat, n: nat)
      requires Valid() && 0 < n && k + n <= maxcol + 1
      modifies this`column, this`maxcol, this`maxalloccol, arrays, cells`text, cells`col
      ensures Valid()
      ensures View() == DeleteColumns(old(View()), k, n, setup)
      ensures forall r: int, c: int {:trigger Content(r, c)} ::
                Content(r, c) == (if c < k then old(Content(r, c)) else old(Content(r, c + n)))
    {
      ghost var before := View();
      assert forall r: int, c: int {:trigger Content(r, c)} :: Content(r, c).1 == TextAt(before, r, c);
      DeleteColumnParts(k, n);
      ShowsDeletedColumns(before, k, n);
    }

    lemma ShowsDeletedColumns(before: Model, k: nat, n: nat)
      requires Store() && Rectangle(before.grid, |before.rows|, |before.cols|)
      requires 0 < n && k + n <= |before.cols| == maxcol + 1 + n
      requires column[..maxcol + 1] == Recalc(Delete(before.cols, k, n), setup.left)
      requires maxalloccol == ShrunkBound(before.allocCol, k, n)
      requires row[..maxrow + 1] == before.rows && maxallocrow == before.allocRow
      requires forall r: int, c: int {:trigger Content(r, c)} ::
                 Content(r, c).1 == TextAt(before, r, if c < k then c else c + n)
      ensures View() == DeleteColumns(before, k, n, setup)
    {
      var m := DeleteColumns(before, k, n, setup);
      DeletedColumnText(before, k, n, setup, 0, 0);
      forall r: int, c: int | 0 <= r <= maxrow && 0 <= c <= maxcol ensures Text(r, c) == m.grid[r][c] {
        DeletedColumnText(before, k, n, setup, r, c);
        assert Text(r, c) == Content(r, c).1;
        assert m.grid[r][c] == TextAt(m, r, c);
      }
      ViewIs(m);
    }

    /** The band begins inside the sheet; it is cut at the end. */
    method DeleteColumnsInside(k: nat, ncols: nat)
      requires Valid() && 0 < ncols && k <= maxcol
      modifies this`column, this`maxcol, this`maxalloccol, arrays, cells`text, cells`col
      ensures Valid()
      ensures View() == DeleteColumns(old(View()), k, ncols, setup)
      ensures forall r: int, c: int {:trigger Content(r, c)} ::
                Content(r, c) == (if c < k then old(Content(r, c)) else old(Content(r, c + ncols)))
    {
      var n := Min(ncols, maxcol - k + 1);
      DeleteColumnsCapped(View(), k, ncols, setup);
      BeyondTheSheet();
      DeleteColumnBand(k, n);
    }

    method DeleteColumn(k: nat, ncols: nat)
      requires Valid()
      modifies this`column, this`maxcol, this`maxalloccol, arrays, cells`text, cells`col
      ensures Valid()
      ensures View() == DeleteColumns(old(View()), k, ncols, setup)
      ensures forall r: int, c: int {:trigger Content(r, c)} ::
                Content(r, c) == (if c < k then old(Content(r, c)) else old(Content(r, c + ncols)))
    {
      var n := Min(ncols, maxcol - k + 1);
      if n <= 0 || k > maxcol { return; }
      DeleteColumnsInside(k, ncols);
    }
  }
}
