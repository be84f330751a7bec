/**
 Whole editing sessions: any sequence of operations on one sheet, what they mean, and where
 the text of a cell comes from.
 */
module SheetRun {
  import opened Wrappers
  import opened SheetRange
  import opened SheetSpec
  import opened SheetStore

  datatype Op =
    | Set(row: int, col: int, text: Option<string>)
    | Clear(row: int, col: int, delete: bool)
    | RangeClear(range: Option<Range>, delete: bool)
    | AddRow(n: nat)
    | AddColumn(n: nat)
    | InsertRow(at: nat, n: nat)
    | InsertColumn(at: nat, n: nat)
    | DeleteRow(at: nat, n: nat)
    | DeleteColumn(at: nat, n: nat)

  function Step(m: Model, op: Op, su: Setup): Model {
    match op
    case Set(r, c, text) => SetText(m, r, c, if text == None then "" else text.value)
    case Clear(r, c, _) => ClearRange(m, Range(r, c, r, c))
    case RangeClear(range, _) => ClearRange(m, if range == None then Range(0, 0, |m.rows| - 1, |m.cols| - 1) else range.value)
    case AddRow(n) => AddRows(m, n, su)
    case AddColumn(n) => AddColumns(m, n, su)
    case InsertRow(at, n) => InsertRows(m, at, n, su)
    case InsertColumn(at, n) => InsertColumns(if n > 0 then m else EmptiedFrom(m, at), at, n, su)
    case DeleteRow(at, n) => DeleteRows(m, at, n, su)
    case DeleteColumn(at, n) => DeleteColumns(m, at, n, su)
  }

  function Meaning(m: Model, ops: seq<Op>, su: Setup): Model {
    if ops == [] then m else Step(Meaning(m, ops[..|ops| - 1], su), ops[|ops| - 1], su)
  }

  method Perform(s: Sheet, op: Op)
    requires s.Valid()
    modifies s, s.arrays, s.cells
    ensures s.Valid() && fresh(s.arrays - old(s.arrays)) && fresh(s.cells - old(s.cells))
    ensures s.View() == Step(old(s.View()), op, s.setup)
  {
    if op.Set? || op.Clear? || op.RangeClear? { PerformWrite(s, op); }
    else if op.InsertRow? || op.DeleteRow? || op.AddRow? { PerformRows(s, op); }
    else { PerformColumns(s, op); }
  }

  method PerformWrite(s: Sheet, op: Op)
    requires s.Valid() && (op.Set? || op.Clear? || op.RangeClear?)
    modifies s, s.arrays, s.cells
    ensures s.Valid() && fresh(s.arrays - old(s.arrays)) && fresh(s.cells - old(s.cells))
    ensures s.View() == Step(old(s.View()), op, s.setup)
  {
    match op
    case Set(r, c, text) => s.SetCell(r, c, text);
    case Clear(r, c, delete) => s.CellClear(r, c, delete);
    case RangeClear(range, delete) => s.RangeClear(range, delete);
  }

  method PerformRows(s: Sheet, op: Op)
    requires s.Valid() && (op.InsertRow? || op.DeleteRow? || op.AddRow?)
    modifies s, s.arrays, s.cells
    ensures s.Valid() && fresh(s.arrays - old(s.arrays)) && fresh(s.cells - old(s.cells))
    ensures s.View() == Step(old(s.View()), op, s.setup)
  {
    match op
    case AddRow(n) => s.AddRows(n);
    case InsertRow(at, n) => s.InsertRow(at, n);
    case DeleteRow(at, n) => s.DeleteRow(at, n);
  }

  method PerformColumns(s: Sheet, op: Op)
    requires s.Valid() && (op.InsertColumn? || op.DeleteColumn? || op.AddColumn?)
    modifies s, s.arrays, s.cells
    ensures s.Valid() && fresh(s.arrays - old(s.arrays)) && fresh(s.cells - old(s.cells))
    ensures s.View() == Step(old(s.View()), op, s.setup)
  {
    match op
    case AddColumn(n) => s.AddColumns(n);
    case InsertColumn(at, n) => s.InsertColumn(at, n);
    case DeleteColumn(at, n) => s.DeleteColumn(at, n);
  }

  /** Over any run the store stays valid and shows exactly what the run means. */
  method Run(s: Sheet, ops: seq<Op>)
    requires s.Valid()
    modifies s, s.arrays, s.cells
    ensures s.Valid()
    ensures s.View() == Meaning(old(s.View()), ops, s.setup)
  {
    for i := 0 to |ops|
      invariant s.Valid() && fresh(s.arrays - old(s.arrays)) && fresh(s.cells - old(s.cells))
      invariant s.View() == Meaning(old(s.View()), ops[..i], s.setup)
    {
      assert ops[..i + 1][..i] == ops[..i];
      Perform(s, ops[i]);
    }
    assert ops[..|ops|] == ops;
  }

  // ----- where a text comes from

  /** A cell's text after an operation was written by it, or was the text of some cell before it. */
  datatype Origin = Written(text: string) | From(row: int, col: int)

  predicate Inside(m: Model, r: int, c: int) {
    0 <= r < |m.rows| && 0 <= c < |m.cols|
  }

  function Trace(m: Model, op: Op, r: int, c: int): Origin {
    match op
    case Set(i, j, text) =>
      if (i, j) == (r, c) && Inside(m, r, c) then Written(if text == None then "" else text.value) else From(r, c)
    case Clear(i, j, _) => if (i, j) == (r, c) then Written("") else From(r, c)
    case RangeClear(range, _) => if range == None || range.value.Holds(r, c) then Written("") else From(r, c)
    case AddRow(_) => From(r, c)
    case AddColumn(_) => From(r, c)
    case InsertRow(at, n) => if r < at then From(r, c) else if r < at + n then Written("") else From(r - n, c)
    case InsertColumn(at, n) =>
      if c < at then From(r, c) else if c < at + n || n == 0 then Written("") else From(r, c - n)
    case DeleteRow(at, n) => From(if r < at then r else r + n, c)
    case DeleteColumn(at, n) => From(r, if c < at then c else c + n)
  }

  /** The text of a cell after `ops`, found by following the cell back to the operation that wrote it. */
  function LastText(m: Model, ops: seq<Op>, su: Setup, r: int, c: int): string
    decreases |ops|
  {
    if ops == [] then TextAt(m, r, c)
    else
      var before := ops[..|ops| - 1];
      match Trace(Meaning(m, before, su), ops[|ops| - 1], r, c)
      case Written(text) => text
      case From(i, j) => LastText(m, before, su, i, j)
  }

  lemma SetTextText(m: Model, i: int, j: int, text: string, r: int, c: int)
    requires Good(m)
    ensures TextAt(SetText(m, i, j, text), r, c) == if (i, j) == (r, c) && Inside(m, r, c) then text else TextAt(m, r, c)
  {
  }

  lemma ClearedText(m: Model, g: Range, r: int, c: int)
    requires Good(m)
    ensures TextAt(ClearRange(m, g), r, c) == if g.Holds(r, c) then "" else TextAt(m, r, c)
  {
  }

  lemma AddedText(m: Model, n: nat, su: Setup, r: int, c: int)
    requires Good(m)
    ensures Rectangle(AddRows(m, n, su).grid, |m.rows| + n, |m.cols|)
    ensures Rectangle(AddColumns(m, n, su).grid, |m.rows|, |m.cols| + n)
    ensures TextAt(AddRows(m, n, su), r, c) == TextAt(AddColumns(m, n, su), r, c) == TextAt(m, r, c)
  {
    var wide, tall := AddColumns(m, n, su).grid, AddRows(m, n, su).grid;
    assert forall i | 0 <= i < |wide| :: wide[i] == m.grid[i] + Repeat(n, "");
    assert forall i | 0 <= i < |tall| :: tall[i] == if i < |m.grid| then m.grid[i] else EmptyRow(|m.cols|);
  }

  ghost predicate Comes(m: Model, s: Model, o: Origin, r: int, c: int) {
    TextAt(s, r, c) == if o.Written? then o.text else TextAt(m, o.row, o.col)
  }

  lemma StepText(m: Model, op: Op, su: Setup, r: int, c: int)
    requires Good(m)
    ensures Comes(m, Step(m, op, su), Trace(m, op, r, c), r, c)
  {
    if op.Set? || op.Clear? || op.RangeClear? { WriteStepText(m, op, su, r, c); }
    else if op.InsertRow? || op.DeleteRow? { RowStepText(m, op, su, r, c); }
    else if op.InsertColumn? || op.DeleteColumn? { ColumnStepText(m, op, su, r, c); }
    else { AddedText(m, op.n, su, r, c); }
  }

  lemma WriteStepText(m: Model, op: Op, su: Setup, r: int, c: int)
    requires Good(m) && (op.Set? || op.Clear? || op.RangeClear?)
    ensures Comes(m, Step(m, op, su), Trace(m, op, r, c), r, c)
  {
    match op
    case Set(i, j, text) => SetTextText(m, i, j, if text == None then "" else text.value, r, c);
    case Clear(i, j, _) => ClearedText(m, Range(i, j, i, j), r, c);
    case RangeClear(range, _) =>
      ClearedText(m, if range == None then Range(0, 0, |m.rows| - 1, |m.cols| - 1) else range.value, r, c);
  }

  lemma RowStepText(m: Model, op: Op, su: Setup, r: int, c: int)
    requires Good(m) && (op.InsertRow? || op.DeleteRow?)
    ensures Comes(m, Step(m, op, su), Trace(m, op, r, c), r, c)
  {
    match op
    case InsertRow(at, n) => InsertedRowText(m, at, n, su, r, c);
    case DeleteRow(at, n) => if at < |m.rows| { DeletedRowText(m, at, n, su, r, c); }
  }

  lemma ColumnStepText(m: Model, op: Op, su: Setup, r: int, c: int)
    requires Good(m) && (op.InsertColumn? || op.DeleteColumn?)
    ensures Comes(m, Step(m, op, su), Trace(m, op, r, c), r, c)
  {
    match op
    case InsertColumn(at, n) => InsertColumnStepText(m, at, n, su, r, c);
    case DeleteColumn(at, n) => if at < |m.cols| { DeletedColumnText(m, at, n, su, r, c); }
  }

  lemma InsertColumnStepText(m: Model, at: nat, n: nat, su: Setup, r: int, c: int)
    requires Good(m)
    ensures TextAt(InsertColumns(if n > 0 then m else EmptiedFrom(m, at), at, n, su), r, c) ==
            if c < at then TextAt(m, r, c) else if c < at + n || n == 0 then "" else TextAt(m, r, c - n)
  {
    ClearedText(m, Range(0, at, |m.rows|, |m.cols|), r, c);
    InsertedColumnText(if n > 0 then m else EmptiedFrom(m, at), at, n, su, r, c);
  }

  ghost predicate Shaped(s: Model) {
    Rectangle(s.grid, |s.rows|, |s.cols|) && -1 <= s.allocRow < |s.rows| && -1 <= s.allocCol < |s.cols|
  }

  /** Every operation leaves a rectangle and sensible allocated bounds. */
  lemma StepShape(m: Model, op: Op, su: Setup)
    requires Good(m)
    ensures Shaped(Step(m, op, su))
  {
    if op.Set? || op.Clear? || op.RangeClear? { WriteStepShape(m, op, su); }
    else if op.InsertRow? || op.DeleteRow? { RowStepShape(m, op, su); }
    else if op.InsertColumn? || op.DeleteColumn? { ColumnStepShape(m, op, su); }
    else { AddedText(m, op.n, su, 0, 0); }
  }

  lemma WriteStepShape(m: Model, op: Op, su: Setup)
    requires Good(m) && (op.Set? || op.Clear? || op.RangeClear?)
    ensures Shaped(Step(m, op, su))
  {
  }

  lemma RowStepShape(m: Model, op: Op, su: Setup)
    requires Good(m) && (op.InsertRow? || op.DeleteRow?)
    ensures Shaped(Step(m, op, su))
  {
    if op.InsertRow? { InsertedRowText(m, op.at, op.n, su, 0, 0); }
    else if op.at < |m.rows| { DeletedRowText(m, op.at, op.n, su, 0, 0); }
  }

  lemma ColumnStepShape(m: Model, op: Op, su: Setup)
    requires Good(m) && (op.InsertColumn? || op.DeleteColumn?)
    ensures Shaped(Step(m, op, su))
  {
    if op.InsertColumn? { InsertedColumnText(if op.n > 0 then m else EmptiedFrom(m, op.at), op.at, op.n, su, 0, 0); }
    else if op.at < |m.cols| { DeletedColumnText(m, op.at, op.n, su, 0, 0); }
  }

  /** A text that came from inside the old bounds, or was written, is inside the new ones. */
  lemma TraceInBounds(m: Model, op: Op, su: Setup, r: int, c: int)
    requires Good(m) && TextAt(Step(m, op, su), r, c) != ""
    ensures r <= Step(m, op, su).allocRow && c <= Step(m, op, su).allocCol
  {
    StepText(m, op, su, r, c);
    var o := Trace(m, op, r, c);
    if o.From? {
      assert TextAt(m, o.row, o.col) != "";
      assert o.row <= m.allocRow && o.col <= m.allocCol;
    }
  }

  lemma StepIsGood(m: Model, op: Op, su: Setup)
    requires Good(m)
    ensures Good(Step(m, op, su))
  {
    var s := Step(m, op, su);
    StepShape(m, op, su);
    forall r, c | 0 <= r < |s.rows| && 0 <= c < |s.cols| ensures s.grid[r][c] != "" ==> r <= s.allocRow && c <= s.allocCol {
      assert s.grid[r][c] == TextAt(s, r, c);
      if s.grid[r][c] != "" { TraceInBounds(m, op, su, r, c); }
    }
  }

  lemma {:induction false} RunIsGood(m: Model, ops: seq<Op>, su: Setup)
    requires Good(m)
    ensures Good(Meaning(m, ops, su))
  {
    if ops != [] {
      RunIsGood(m, ops[..|ops| - 1], su);
      StepIsGood(Meaning(m, ops[..|ops| - 1], su), ops[|ops| - 1], su);
    }
  }

  /** What gtk_sheet_cell_get_text finds is the last text set at that cell, followed through every renumbering. */
  lemma {:induction false} TextIsLastText(m: Model, ops: seq<Op>, su: Setup, r: int, c: int)
    requires Good(m)
    ensures TextAt(Meaning(m, ops, su), r, c) == LastText(m, ops, su, r, c)
    decreases |ops|
  {
    if ops != [] {
      var before, op := ops[..|ops| - 1], ops[|ops| - 1];
      var b := Meaning(m, before, su);
      RunIsGood(m, before, su);
      StepText(b, op, su, r, c);
      match Trace(b, op, r, c) {
        case Written(_) =>
        case From(i, j) => TextIsLastText(m, before, su, i, j);
      }
    }
  }

  /** What a sheet shows has text only inside the allocated bounds. */
  lemma ViewIsGood(s: Sheet)
    requires s.Valid()
    ensures Good(s.View())
  {
    var m := s.View();
    forall r, c | 0 <= r < |m.rows| && 0 <= c < |m.cols| ensures m.grid[r][c] == s.Text(r, c) { }
  }

  /** A sheet is made, edited in any way, and asked for a text: the answer is the last text set there that has not been cleared. */
  method TextAfter(rows: nat, columns: nat, su: Setup, ops: seq<Op>, r: int, c: int) returns (text: Option<string>)
    requires rows >= 2 && columns >= 2
    ensures var last := LastText(NewModel(rows, columns, su), ops, su, r, c);
            text == if last == "" then None else Some(last)
  {
    var s := new Sheet(rows, columns, su);
    ViewIsGood(s);
    Run(s, ops);
    TextIsLastText(NewModel(rows, columns, su), ops, su, r, c);
    text := s.GetText(r, c);
  }
}
