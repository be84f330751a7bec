/**
 Dragging and resizing the selection of a sheet with the mouse: presses, motions, releases and
 the scroll timer over the cells. The lookups give a cell of the sheet for every pixel; what the
 program's signal handlers answer, and which border the mouse is near, are parameters.
 */
module Drag {
  import opened Wrappers
  import opened SheetRange
  import SheetPixels
  import SheetSpec

  datatype State = Normal | RowSelected | ColumnSelected | RangeSelected
  datatype Cursor = Plus | TopLeftArrow | Sizing

  function Single(c: Position): (r: Range)
    ensures forall row, col :: r.Holds(row, col) <==> row == c.row && col == c.col
  {
    Range(c.row, c.col, c.row, c.col)
  }

  function Moved(r: Range, rows: int, cols: int): (m: Range)
    ensures forall row, col :: m.Holds(row + rows, col + cols) <==> r.Holds(row, col)
  {
    Range(r.row0 + rows, r.col0 + cols, r.rowi + rows, r.coli + cols)
  }

  /** `r` reaching to row `p` below it, or up to the row behind `p` above it. */
  function StretchedToRow(r: Range, p: int): Range {
    Range(Min(r.row0, p + 1), r.col0, Max(r.rowi, p), r.coli)
  }

  function StretchedToColumn(r: Range, p: int): Range {
    Range(r.row0, Min(r.col0, p + 1), r.rowi, Max(r.coli, p))
  }

  /**
   Whether a range of rows `lo`..`hi`, stretched by a mouse that was grabbed at `from` and is
   now at `to`, takes in the row of the mouse. Grabbed at the last row it does unless the mouse
   is above the range.
   */
  predicate Reached(lo: int, hi: int, from: int, to: int): (reached: bool)
    requires lo <= hi
    ensures from == hi ==> (reached <==> lo <= to)
  {
    if to > from then lo <= to && from <= hi
    else if from - to <= hi - lo + 1 then lo <= to <= hi
    else hi < from && to <= hi
  }

  /** What the stretching of rows or columns comes to for the mouse, and for the first of them. */
  lemma StretchReaches(lo: int, hi: int, from: int, to: int)
    requires 0 <= lo <= hi
    ensures var p := hi + to - from;
            && (Min(lo, p + 1) <= to <= Max(hi, p) <==> Reached(lo, hi, from, to))
            && (p >= -1 ==> (Min(lo, p + 1) == 0 <==> lo == 0 || from == hi + to + 1))
  {
  }

  /** The smallest range with both cells. */
  function Box(a: Position, b: Position): (r: Range)
    ensures r.Holds(a.row, a.col) && r.Holds(b.row, b.col)
    ensures forall other: Range :: other.Holds(a.row, a.col) && other.Holds(b.row, b.col) ==> other.Contains(r)
  {
    Range(Min(a.row, b.row), Min(a.col, b.col), Max(a.row, b.row), Max(a.col, b.col))
  }

  /** `drag` is `r`, moved. */
  predicate IsMoved(r: Range, drag: Range) {
    drag == Moved(r, drag.row0 - r.row0, drag.col0 - r.col0)
  }

  /** `drag` is `r`, grown along one axis. */
  predicate IsGrown(r: Range, drag: Range) {
    drag.Contains(r) && ((drag.row0 == r.row0 && drag.rowi == r.rowi) || (drag.col0 == r.col0 && drag.coli == r.coli))
  }

  datatype Event =
    | Press(cell: Position, visible: bool, deactivates: bool, traverse: Option<Position>)
    | Motion(cell: Position, down: bool, sideways: bool, nearBorder: bool, nearCorner: bool)
    | Scroll(cell: Position)
    | Release(deactivates: bool)

  /** The button is released somewhere from event `i` on, before event `j`. */
  predicate Freed(events: seq<Event>, i: nat, j: nat)
    requires j <= |events|
  {
    exists k | i <= k < j :: events[k].Release?
  }

  /** Nothing is pressed while the button is down; `down` tells whether it is at the start. */
  predicate PressedOnce(events: seq<Event>, down: bool) {
    && (forall i: nat, j: nat | i < j < |events| && events[i].Press? && events[j].Press? :: Freed(events, i, j))
    && (down ==> forall j: nat | j < |events| && events[j].Press? :: Freed(events, 0, j))
  }

  /** With the button up at the start: between two presses there is a release. */
  lemma PressedOncePlainly(events: seq<Event>)
    ensures PressedOnce(events, false) <==>
            forall i, j | 0 <= i < j < |events| && events[i].Press? && events[j].Press? :: exists k | i < k < j :: events[k].Release?
  {
    if PressedOnce(events, false) {
      forall i: nat, j: nat | i < j < |events| && events[i].Press? && events[j].Press?
        ensures exists k | i < k < j :: events[k].Release?
      {
        assert Freed(events, i, j);
        var k :| i <= k < j && events[k].Release?;
      }
    }
  }

  /** After `n` events the button may still be down. */
  predicate Held(events: seq<Event>, n: nat, down: bool)
    requires n <= |events|
  {
    (down && !Freed(events, 0, n)) || exists i: nat | i < n :: events[i].Press? && !Freed(events, i, n)
  }

  lemma HeldNext(events: seq<Event>, n: nat, down: bool)
    requires n < |events|
    ensures events[n].Press? && PressedOnce(events, down) ==> !Held(events, n, down)
    ensures events[n].Press? ==> Held(events, n + 1, down)
    ensures Held(events, n, down) && !events[n].Release? ==> Held(events, n + 1, down)
  {
    if events[n].Press? {
      assert !Freed(events, n, n + 1);
    }
    if Held(events, n, down) && !events[n].Release? {
      if down && !Freed(events, 0, n) {
        assert !Freed(events, 0, n + 1);
      } else {
        var i: nat :| i < n && events[i].Press? && !Freed(events, i, n);
        assert !Freed(events, i, n + 1);
      }
    }
  }

  class Selection {
    const maxRow: nat
    const maxCol: nat
    const singleMode: bool
    var state: State
    var range: Range
    var dragRange: Range
    var activeCell: Position
    var selectionCell: Position
    var dragCell: Position
    var cursor: Cursor
    var inDrag: bool
    var inResize: bool
    var inSelection: bool

    predicate OnSheet(c: Position) {
      0 <= c.row <= maxRow && 0 <= c.col <= maxCol
    }

    predicate Busy()
      reads `inDrag, `inResize
    {
      inDrag || inResize
    }

    ghost predicate Valid()
      reads this
    {
      && range.Within(maxRow, maxCol) && (Busy() ==> dragRange.Within(maxRow, maxCol))
      && OnSheet(activeCell) && OnSheet(selectionCell)
      && (inDrag ==> cursor.TopLeftArrow? && !inResize) && (inResize ==> cursor.Sizing?)
      && (state.Normal? ==> activeCell == range.TopLeft() && selectionCell == range.TopLeft())
    }

    /** While dragging, the dragged range is the selection moved; while resizing, the selection grown. */
    ghost predicate Follows()
      reads `inDrag, `inResize, `range, `dragRange
    {
      (inDrag ==> IsMoved(range, dragRange)) && (inResize ==> IsGrown(range, dragRange))
    }

    /** So it is, and nothing is being selected at the same time. */
    ghost predicate Steady()
      reads `inDrag, `inResize, `range, `dragRange, `inSelection
    {
      Follows() && (Busy() ==> !inSelection)
    }

    constructor (maxRow: nat, maxCol: nat, singleMode: bool)
      ensures this.maxRow == maxRow && this.maxCol == maxCol && this.singleMode == singleMode
      ensures Valid() && Steady() && !Busy() && !inSelection && cursor.Plus?
      ensures state.Normal? && range == Single(Position(0, 0))
    {
      this.maxRow, this.maxCol, this.singleMode := maxRow, maxCol, singleMode;
      state, range, dragRange := Normal, Single(Position(0, 0)), Single(Position(0, 0));
      activeCell, selectionCell, dragCell := Position(0, 0), Position(0, 0), Position(0, 0);
      cursor, inDrag, inResize, inSelection := Plus, false, false, false;
    }

    /** gtk_sheet_deactivate_cell. */
    method DeactivateCell(deactivates: bool) returns (done: bool)
      modifies `activeCell
      ensures done <==> state.Normal? && deactivates
      ensures activeCell == if done then Position(-1, -1) else old(activeCell)
    {
      if state != Normal || !deactivates { return false; }
      activeCell := Position(-1, -1);
      return true;
    }

    /** gtk_sheet_activate_cell. */
    method ActivateCell(c: Position)
      requires OnSheet(c)
      modifies `state, `range, `activeCell, `selectionCell, `inSelection
      ensures state.Normal? && range == Single(c) && activeCell == c && selectionCell == c && !inSelection
    {
      if state != Normal {
        state := Normal;
      }
      range, activeCell, selectionCell, inSelection := Single(c), c, c, false;
    }

    /** gtk_sheet_select_range. */
    method SelectRange(r: Range, deactivates: bool)
      requires r.Within(maxRow, maxCol)
      modifies `state, `range, `activeCell, `selectionCell
      ensures if old(state).Normal? && !deactivates then
                state == old(state) && range == old(range)
                && activeCell == old(activeCell) && selectionCell == old(selectionCell)
              else
                state.RangeSelected? && range == r && activeCell == r.TopLeft() && selectionCell == r.BottomRight()
    {
      if state == Normal {
        var done := DeactivateCell(deactivates);
        if !done { return; }
      }
      range, activeCell, selectionCell := r, r.TopLeft(), r.BottomRight();
      state := RangeSelected;
    }

    // ----- presses

    /** The cell a click makes the range, or None when the range stays; a refused click gives the active cell the range. */
    function Clicked(visible: bool, deactivates: bool, traverse: Option<Position>): Option<Position>
      reads `state, `activeCell
    {
      if !visible then None
      else if traverse.None? then if state.Normal? then None else Some(activeCell)
      else if state.Normal? && !deactivates then None
      else traverse
    }

    /**
     gtk_sheet_click_cell on a cell of the sheet; `traverse` is the cell the handlers redirect
     to, or None when they refuse.
     */
    method ClickCell(visible: bool, deactivates: bool, traverse: Option<Position>) returns (accepted: bool)
      requires Valid() && (traverse.Some? ==> OnSheet(traverse.value))
      modifies `state, `range, `activeCell, `selectionCell, `inSelection
      ensures Valid()
      ensures accepted <==> visible && traverse.Some? && (old(state).Normal? ==> deactivates)
      ensures inSelection == (accepted || (old(inSelection) && old(Clicked(visible, deactivates, traverse)).None?))
      ensures match old(Clicked(visible, deactivates, traverse))
              case Some(c) => range == Single(c) && state.Normal? && activeCell == c
              case None => range == old(range) && state == old(state) && activeCell == old(activeCell)
      ensures accepted ==> activeCell == traverse.value
      ensures visible && traverse.None? && !old(state).Normal? ==> activeCell == old(activeCell) && range == Single(activeCell)
      ensures !visible || (old(state).Normal? && (traverse.None? || !deactivates)) ==> range == old(range)
    {
      if !visible { return false; }
      if traverse.None? {
        if state != Normal {
          ActivateCell(activeCell);
        }
        return false;
      }
      if state != Normal {
        state := Normal;
      } else {
        var done := DeactivateCell(deactivates);
        if !done { return false; }
      }
      activeCell, selectionCell, range := traverse.value, traverse.value, Single(traverse.value);
      inSelection := true;
      return true;
    }

    /**
     What a press does first when no range is selected: the active cell becomes the range, and
     it is what is grabbed, wherever the mouse is.
     */
    method SelectActive(cell: Position, deactivates: bool) returns (done: bool, grabbed: Position)
      requires Valid() && !Busy()
      modifies `state, `range, `activeCell, `selectionCell, `dragRange
      ensures Valid() && range == old(range)
      ensures done <==> (old(state).Normal? ==> deactivates)
      ensures grabbed == if old(state).Normal? then old(activeCell) else cell
      ensures state == if old(state).Normal? && done then RangeSelected else old(state)
    {
      grabbed := cell;
      if state == Normal {
        grabbed := activeCell;
        done := DeactivateCell(deactivates);
        if !done { return; }
        activeCell := grabbed;
        dragRange := range;
        state := RangeSelected;
        SelectRange(dragRange, deactivates);
      }
      done := true;
    }

    predicate StartsResize()
      reads `cursor, `inSelection, `inResize
    {
      !singleMode && cursor.Sizing? && !inSelection && !inResize
    }

    predicate StartsDrag()
      reads `cursor, `inSelection, `inDrag
    {
      cursor.TopLeftArrow? && !inSelection && !inDrag
    }

    /** Whether what is dragged still follows the selection when a click makes this a single cell. */
    predicate StaysUnder(clicked: Option<Position>)
      reads `inDrag, `dragRange
    {
      match clicked
      case None => true
      case Some(c) =>
        if inDrag then dragRange == Single(dragRange.TopLeft())
        else dragRange.Contains(Single(c)) && (dragRange.row0 == dragRange.rowi || dragRange.col0 == dragRange.coli)
    }

    /** A press near a border or the corner of the selection. */
    method Grab(cell: Position, deactivates: bool)
      requires Valid() && !Busy() && (StartsResize() || StartsDrag())
      modifies `state, `range, `activeCell, `selectionCell, `dragRange, `dragCell, `inDrag, `inResize
      ensures Valid() && range == old(range)
      ensures if old(state).Normal? && !deactivates then !Busy() && state.Normal?
              else
                && inResize == old(StartsResize()) && inDrag == !inResize && dragRange == range
                && state == (if old(state).Normal? then RangeSelected else old(state))
                && (old(state).Normal? ==> dragCell == old(activeCell))
                && (!old(state).Normal? ==>
                      && dragCell.row == (if cell.row > range.rowi then cell.row - 1
                                          else if inDrag && cell.row < range.row0 then cell.row + 1 else cell.row)
                      && dragCell.col == (if cell.col > range.coli then cell.col - 1
                                          else if inDrag && cell.col < range.col0 then cell.col + 1 else cell.col))
    {
      var resize := StartsResize();
      var done, c := SelectActive(cell, deactivates);
      if !done { return; }
      var row, col := c.row, c.col;
      if !resize && row < range.row0 { row := row + 1; }
      if row > range.rowi { row := row - 1; }
      if !resize && col < range.col0 { col := col + 1; }
      if col > range.coli { col := col - 1; }
      dragCell := Position(row, col);
      dragRange := range;
      if resize { inResize := true; } else { inDrag := true; }
    }

    /**
     gtk_sheet_button_press over the cells: the selection is grabbed, or a cell is clicked. With
     the button already down it is always a click, and then what is dragged follows the selection
     on exactly when the click leaves the range alone, or fits under what is dragged.
     */
    method DoPress(cell: Position, visible: bool, deactivates: bool, traverse: Option<Position>)
      requires Valid() && OnSheet(cell) && (traverse.Some? ==> OnSheet(traverse.value))
      modifies this
      ensures Valid() && cursor == old(cursor)
      ensures old(StartsResize() || StartsDrag()) ==>
                && Steady() && !inSelection && range == old(range)
                && (Busy() <==> (old(state).Normal? ==> deactivates))
                && (Busy() ==> inResize == old(StartsResize()) && dragRange == range)
                && state == if Busy() && old(state).Normal? then RangeSelected else old(state)
      ensures Busy() && !old(Busy()) ==>
                && (old(state).Normal? ==> dragCell == old(activeCell))
                && (!old(state).Normal? ==>
                      && dragCell.row == (if cell.row > range.rowi then cell.row - 1
                                          else if inDrag && cell.row < range.row0 then cell.row + 1 else cell.row)
                      && dragCell.col == (if cell.col > range.coli then cell.col - 1
                                          else if inDrag && cell.col < range.col0 then cell.col + 1 else cell.col))
      ensures inResize && !old(inResize) <==>
                old(!singleMode && cursor.Sizing? && !inSelection && !inResize) && (old(state).Normal? ==> deactivates)
      ensures inDrag && !old(inDrag) <==>
                old(cursor.TopLeftArrow? && !inSelection && !inDrag) && (old(state).Normal? ==> deactivates)
      ensures old(Busy()) ==> !old(StartsResize() || StartsDrag())
      ensures !old(StartsResize() || StartsDrag()) ==>
                && inDrag == old(inDrag) && inResize == old(inResize)
                && dragRange == old(dragRange) && dragCell == old(dragCell)
                && match old(Clicked(visible, deactivates, traverse))
                   case Some(c) => range == Single(c) && state.Normal? && activeCell == c && inSelection == traverse.Some?
                   case None =>
                     range == old(range) && state == old(state) && activeCell == old(activeCell) && inSelection == old(inSelection)
      ensures old(Busy() && Follows()) ==> (Follows() <==> old(StaysUnder(Clicked(visible, deactivates, traverse))))
    {
      if !singleMode && cursor == Sizing && !inSelection && !inResize {
        Grab(cell, deactivates);
      } else if cursor == TopLeftArrow && !inSelection && !inDrag {
        Grab(cell, deactivates);
      } else {
        var accepted := ClickCell(visible, deactivates, traverse);
        if accepted { inSelection := true; }
      }
    }

    // ----- motions

    /** What a press would do is told by the cursor, which stays while something is dragged. */
    method ChooseCursor(nearBorder: bool, nearCorner: bool)
      requires (inDrag ==> cursor.TopLeftArrow? && !inResize) && (inResize ==> cursor.Sizing?)
      modifies `cursor
      ensures cursor == (if inResize || (nearCorner && !inDrag) then Sizing else if inDrag || nearBorder then TopLeftArrow else Plus)
    {
      if !nearBorder && !inDrag && !nearCorner && !inResize { cursor := Plus; }
      if !(nearCorner || inResize) && (nearBorder || inDrag) { cursor := TopLeftArrow; }
      if !inDrag && (nearCorner || inResize) { cursor := Sizing; }
    }

    /** How far the mouse is from where it grabbed the selection; whole columns do not move by rows. */
    function RowsMoved(cell: Position): (rows: int)
      reads `state, `dragCell
      ensures state.ColumnSelected? ==> rows == 0
      ensures !state.ColumnSelected? ==> dragCell.row + rows == cell.row
    {
      if state.ColumnSelected? then 0 else cell.row - dragCell.row
    }

    /** Whole rows do not move by columns. */
    function ColumnsMoved(cell: Position): (cols: int)
      reads `state, `dragCell
      ensures state.RowSelected? ==> cols == 0
      ensures !state.RowSelected? ==> dragCell.col + cols == cell.col
    {
      if state.RowSelected? then 0 else cell.col - dragCell.col
    }

    /** The dragging part of gtk_sheet_motion: the range follows the mouse while it fits on the sheet. */
    method DragTo(cell: Position)
      requires Valid() && inDrag
      modifies `dragRange
      ensures Valid()
      ensures var moved := Moved(range, RowsMoved(cell), ColumnsMoved(cell));
              dragRange == if moved.Within(maxRow, maxCol) then moved else old(dragRange)
    {
      var col, row := cell.col - dragCell.col, cell.row - dragCell.row;
      if state == ColumnSelected { row := 0; }
      if state == RowSelected { col := 0; }
      var aux := range;
      if aux.row0 + row >= 0 && aux.rowi + row <= maxRow && aux.col0 + col >= 0 && aux.coli + col <= maxCol {
        dragRange := Range(range.row0 + row, range.col0 + col, range.rowi + row, range.coli + col);
      }
    }

    /** The selection stretched along one axis by as much as the mouse has moved. */
    function Stretched(cell: Position, sideways: bool): (r: Range)
      requires range.row0 <= range.rowi && range.col0 <= range.coli
      reads `state, `dragCell, `range
      ensures sideways ==> r.row0 == range.row0 && r.rowi == range.rowi
      ensures !sideways ==> r.col0 == range.col0 && r.coli == range.coli
      ensures !sideways && RowsMoved(cell) >= 0 ==> r.row0 == range.row0 && r.rowi - range.rowi == RowsMoved(cell)
      ensures !sideways && RowsMoved(cell) < 0 ==> r.rowi == range.rowi && r.row0 <= range.row0
      ensures !sideways && r.row0 < range.row0 ==> r.row0 - 1 - range.rowi == RowsMoved(cell)
      ensures !sideways && r.row0 == range.row0 ==> RowsMoved(cell) >= range.row0 - range.rowi - 1
      ensures sideways && ColumnsMoved(cell) >= 0 ==> r.col0 == range.col0 && r.coli - range.coli == ColumnsMoved(cell)
      ensures sideways && ColumnsMoved(cell) < 0 ==> r.coli == range.coli && r.col0 <= range.col0
      ensures sideways && r.col0 < range.col0 ==> r.col0 - 1 - range.coli == ColumnsMoved(cell)
      ensures sideways && r.col0 == range.col0 ==> ColumnsMoved(cell) >= range.col0 - range.coli - 1
    {
      if sideways then StretchedToColumn(range, range.coli + ColumnsMoved(cell))
      else StretchedToRow(range, range.rowi + RowsMoved(cell))
    }

    /**
     The resizing part: the range is stretched while it stays on the sheet. Downwards it reaches
     as far as the mouse has moved, upwards one row less; so it takes in the row of the mouse, or the
     first row, only as said here. The same holds for columns.
     */
    method ResizeTo(cell: Position, sideways: bool)
      requires Valid() && inResize
      modifies `dragRange
      ensures Valid()
      ensures dragRange == if Stretched(cell, sideways).Within(maxRow, maxCol) then Stretched(cell, sideways) else old(dragRange)
      ensures !sideways && Stretched(cell, sideways).Within(maxRow, maxCol) && !state.ColumnSelected? ==>
                && (dragRange.row0 <= cell.row <= dragRange.rowi <==> Reached(range.row0, range.rowi, dragCell.row, cell.row))
                && (dragRange.row0 == 0 <==> range.row0 == 0 || dragCell.row == range.rowi + cell.row + 1)
      ensures sideways && Stretched(cell, sideways).Within(maxRow, maxCol) && !state.RowSelected? ==>
                && (dragRange.col0 <= cell.col <= dragRange.coli <==> Reached(range.col0, range.coli, dragCell.col, cell.col))
                && (dragRange.col0 == 0 <==> range.col0 == 0 || dragCell.col == range.coli + cell.col + 1)
    {
      StretchReaches(range.row0, range.rowi, dragCell.row, cell.row);
      StretchReaches(range.col0, range.coli, dragCell.col, cell.col);
      Stretch(cell, sideways);
    }

    method Stretch(cell: Position, sideways: bool)
      requires Valid() && inResize
      modifies `dragRange
      ensures Valid()
      ensures dragRange == if Stretched(cell, sideways).Within(maxRow, maxCol) then Stretched(cell, sideways) else old(dragRange)
    {
      var col, row := cell.col - dragCell.col, cell.row - dragCell.row;
      if state == ColumnSelected { row := 0; }
      if state == RowSelected { col := 0; }
      if row < range.row0 - range.rowi - 1 {
        row := row + (range.rowi - range.row0 + 1);
      } else if row < 0 {
        row := 0;
      }
      if col < range.col0 - range.coli - 1 {
        col := col + (range.coli - range.col0 + 1);
      } else if col < 0 {
        col := 0;
      }
      if !sideways { col := 0; } else { row := 0; }
      StretchBy(row, col);
    }

    /** The end of the resizing part: negative steps move the first row or column, positive ones the last. */
    method StretchBy(row: int, col: int)
      requires range.Within(maxRow, maxCol) && (row == 0 || col == 0)
      modifies `dragRange
      ensures var r := Range(range.row0 + Min(row, 0), range.col0 + Min(col, 0), range.rowi + Max(row, 0), range.coli + Max(col, 0));
              dragRange == if r.Within(maxRow, maxCol) then r else old(dragRange)
    {
      var aux := range;
      if aux.row0 + row >= 0 && aux.rowi + row <= maxRow && aux.col0 + col >= 0 && aux.coli + col <= maxCol {
        dragRange := range;
        if row < 0 { dragRange := dragRange.(row0 := range.row0 + row); }
        if row > 0 { dragRange := dragRange.(rowi := range.rowi + row); }
        if col < 0 { dragRange := dragRange.(col0 := range.col0 + col); }
        if col > 0 { dragRange := dragRange.(coli := range.coli + col); }
      }
    }

    /** gtk_sheet_extend_selection. */
    method ExtendSelection(cell: Position)
      requires Valid() && OnSheet(cell)
      modifies `state, `range, `selectionCell
      ensures Valid()
      ensures if cell != old(selectionCell) && !singleMode && !inDrag then
                && state == (if old(state).Normal? then RangeSelected else old(state)) && range == Box(activeCell, selectionCell)
                && selectionCell.row == (if old(state).ColumnSelected? then maxRow else cell.row)
                && selectionCell.col == (if old(state).RowSelected? then maxCol else cell.col)
                && range.Holds(activeCell.row, activeCell.col) && range.Holds(selectionCell.row, selectionCell.col)
                && (forall other: Range | other.Holds(activeCell.row, activeCell.col) && other.Holds(selectionCell.row, selectionCell.col) ::
                      other.Contains(range))
              else state == old(state) && range == old(range) && selectionCell == old(selectionCell)
    {
      if cell == selectionCell { return; }
      if singleMode { return; }
      if inDrag { return; }
      var row, col := cell.row, cell.col;
      match state {
        case RowSelected => col := maxCol;
        case ColumnSelected => row := maxRow;
        case Normal =>
          state := RangeSelected;
          range := Single(activeCell);
        case RangeSelected =>
      }
      selectionCell := Position(row, col);
      range := Box(activeCell, Position(row, col));
    }

    /** gtk_sheet_scroll: the timer extends a selection, and otherwise only scrolls. */
    method DoScroll(cell: Position)
      requires Valid() && OnSheet(cell)
      modifies `state, `range, `selectionCell
      ensures Valid()
      ensures if inSelection && cell != old(selectionCell) && !singleMode && !inDrag then
                && !state.Normal?
                && selectionCell.row == (if old(state).ColumnSelected? then maxRow else cell.row)
                && selectionCell.col == (if old(state).RowSelected? then maxCol else cell.col)
                && range.Holds(activeCell.row, activeCell.col) && range.Holds(selectionCell.row, selectionCell.col)
                && (forall other: Range | other.Holds(activeCell.row, activeCell.col) && other.Holds(selectionCell.row, selectionCell.col) ::
                      other.Contains(range))
              else range == old(range) && state == old(state) && selectionCell == old(selectionCell)
    {
      if inSelection {
        ExtendSelection(cell);
      }
    }

    /** gtk_sheet_motion over the cells; with the button up only the cursor changes. */
    method DoMotion(cell: Position, down: bool, sideways: bool, nearBorder: bool, nearCorner: bool)
      requires Valid() && OnSheet(cell)
      modifies `cursor, `dragRange, `state, `range, `selectionCell
      ensures Valid() && cursor == (if inResize || (nearCorner && !inDrag) then Sizing else if inDrag || nearBorder then TopLeftArrow else Plus)
      ensures old(Follows()) ==> Follows()
      ensures !down ==> dragRange == old(dragRange)
      ensures down && inDrag ==>
                var moved := Moved(range, RowsMoved(cell), ColumnsMoved(cell));
                dragRange == if moved.Within(maxRow, maxCol) then moved else old(dragRange)
      ensures down && inResize ==>
                dragRange == if Stretched(cell, sideways).Within(maxRow, maxCol) then Stretched(cell, sideways) else old(dragRange)
      ensures if down && !Busy() && inSelection && cell != old(selectionCell) && !singleMode
                 && !(old(state).Normal? && cell == activeCell) then
                && !state.Normal? && (old(state).Normal? ==> state.RangeSelected?) && range == Box(activeCell, selectionCell)
                && selectionCell.row == (if old(state).ColumnSelected? then maxRow else cell.row)
                && selectionCell.col == (if old(state).RowSelected? then maxCol else cell.col)
                && range.Holds(activeCell.row, activeCell.col) && range.Holds(selectionCell.row, selectionCell.col)
                && (forall other: Range | other.Holds(activeCell.row, activeCell.col) && other.Holds(selectionCell.row, selectionCell.col) ::
                      other.Contains(range))
              else range == old(range) && state == old(state) && selectionCell == old(selectionCell)
    {
      ChooseCursor(nearBorder, nearCorner);
      if !down { return; }
      if inDrag {
        DragTo(cell);
      } else if inResize {
        ResizeTo(cell, sideways);
      } else if state == Normal && cell == activeCell {
      } else if inSelection {
        ExtendSelection(cell);
      }
    }

    // ----- releases

    /** The first half of a release while dragging or resizing: the ranges change places. */
    method TakeDragRange()
      requires Valid() && Busy()
      modifies `range, `dragRange, `activeCell, `selectionCell, `inDrag, `inResize
      ensures range == old(dragRange) && dragRange == old(range) && !Busy()
      ensures old(inDrag) && state.Normal? ==> activeCell == range.TopLeft() && selectionCell == range.TopLeft()
    {
      var rows, cols := dragRange.row0 - range.row0, dragRange.col0 - range.col0;
      activeCell := Position(activeCell.row + rows, activeCell.col + cols);
      if inDrag {
        selectionCell := Position(selectionCell.row + rows, selectionCell.col + cols);
      } else {
        if dragRange.row0 < range.row0 { selectionCell := selectionCell.(row := dragRange.row0); }
        if dragRange.rowi >= range.rowi { selectionCell := selectionCell.(row := dragRange.rowi); }
        if dragRange.col0 < range.col0 { selectionCell := selectionCell.(col := dragRange.col0); }
        if dragRange.coli >= range.coli { selectionCell := selectionCell.(col := dragRange.coli); }
      }
      range, dragRange := dragRange, range;
      inDrag, inResize := false, false;
    }

    /**
     gtk_sheet_button_release: the dragged range becomes the selection, with the active cell
     and the selection cell at its corners, unless a press had ended the selection meanwhile
     and the active cell cannot be left.
     */
    method DoRelease(deactivates: bool)
      requires Valid()
      modifies this
      ensures Valid() && !Busy() && !inSelection && cursor == old(cursor)
      ensures old(Busy()) && (old(inDrag) && old(state).Normal? ==> deactivates) ==>
                && range == old(dragRange) && state.RangeSelected?
                && activeCell == range.TopLeft() && selectionCell == range.BottomRight()
      ensures old(inDrag) && old(state).Normal? && !deactivates ==>
                && state.Normal? && activeCell == old(dragRange).TopLeft()
                && range == if old(inSelection) then Single(old(dragRange).TopLeft()) else old(dragRange)
      ensures !old(Busy()) ==>
                && state == old(state) && activeCell == old(activeCell)
                && range == if old(state).Normal? && old(inSelection) then Single(activeCell) else old(range)
    {
      if inDrag {
        TakeDragRange();
        SelectRange(range, deactivates);
      } else if inResize {
        TakeDragRange();
        if state == Normal { state := RangeSelected; }
        SelectRange(range, deactivates);
      }
      if state == Normal && inSelection {
        inSelection := false;
        ActivateCell(activeCell);
      }
      inSelection := false;
    }

    // ----- runs

    predicate OnSheetEvent(event: Event) {
      match event
      case Press(cell, _, _, traverse) => OnSheet(cell) && (traverse.Some? ==> OnSheet(traverse.value))
      case Motion(cell, _, _, _, _) => OnSheet(cell)
      case Scroll(cell) => OnSheet(cell)
      case Release(_) => true
    }

    method Handle(event: Event)
      requires Valid() && OnSheetEvent(event)
      modifies this
      ensures Valid()
      ensures old(Steady()) && (event.Press? ==> !old(Busy())) ==> Steady()
      ensures event.Release? ==> !Busy()
      ensures !event.Press? && !old(Busy()) ==> !Busy()
    {
      match event {
        case Press(cell, visible, deactivates, traverse) => DoPress(cell, visible, deactivates, traverse);
        case Motion(cell, down, sideways, nearBorder, nearCorner) => DoMotion(cell, down, sideways, nearBorder, nearCorner);
        case Scroll(cell) => DoScroll(cell);
        case Release(deactivates) => DoRelease(deactivates);
      }
    }

    /**
     Any run: all ranges stay on the sheet; and when nothing is pressed while the button is
     down, what is dragged is the selection moved, or grown along one axis.
     */
    method Run(events: seq<Event>)
      requires Valid() && forall i | 0 <= i < |events| :: OnSheetEvent(events[i])
      modifies this
      ensures Valid()
      ensures old(Steady()) && PressedOnce(events, old(Busy())) ==> Steady()
      ensures !old(Busy())
              && (forall i, j | 0 <= i < j < |events| && events[i].Press? && events[j].Press? ::
                    exists k | i < k < j :: events[k].Release?)
              ==> Follows()
    {
      PressedOncePlainly(events);
      for n := 0 to |events|
        invariant Valid()
        invariant old(Steady()) && PressedOnce(events, old(Busy())) ==> Steady()
        invariant old(Steady()) && PressedOnce(events, old(Busy())) ==> Busy() ==> Held(events, n, old(Busy()))
      {
        HeldNext(events, n, old(Busy()));
        Handle(events[n]);
      }
    }
  }

  // ----- runs in which the rules above fail

  /** A selection of cells (`top`, `left`) to (`bottom`, `right`), made with the mouse on a new sheet. */
  method Select(top: nat, left: nat, bottom: nat, right: nat) returns (s: Selection)
    requires (top, left) != (bottom, right) && top <= bottom <= 9 && left <= right <= 9
    ensures fresh(s) && s.Valid() && !s.Busy() && !s.inSelection && !s.singleMode && s.maxRow == s.maxCol == 9
    ensures s.state.RangeSelected? && s.range == Range(top, left, bottom, right)
  {
    s := new Selection(9, 9, false);
    s.DoPress(Position(top, left), true, true, Some(Position(top, left)));
    s.DoMotion(Position(bottom, right), true, false, false, false);
    s.DoRelease(true);
  }

  /** While a range of four cells is dragged, a cell elsewhere is clicked. */
  method ClickedWhileDragging() returns (s: Selection)
    ensures s.Valid() && s.inDrag && s.dragRange == Range(1, 1, 2, 2) && s.range == Single(Position(4, 4))
    ensures !s.Follows()
  {
    s := Select(1, 1, 2, 2);
    s.DoMotion(Position(1, 1), false, false, true, false);
    s.DoPress(Position(1, 1), true, true, None);
    assert s.Follows();
    s.DoPress(Position(4, 4), true, true, Some(Position(4, 4)));
  }

  /** A range grabbed at its corner and pulled to the first row stops at the second. */
  method PulledToFirstRow() returns (s: Selection)
    ensures s.Valid() && s.inResize && s.range == Range(2, 2, 2, 3) && s.dragRange == Range(1, 2, 2, 3)
  {
    s := Select(2, 2, 2, 3);
    s.DoMotion(Position(2, 3), false, false, false, true);
    s.DoPress(Position(2, 3), true, true, None);
    s.DoMotion(Position(0, 3), true, false, false, false);
  }

  /** Ten rows of ten pixels, the fourth one hidden. */
  function RowsWithOneHidden(): seq<SheetSpec.Header> {
    seq(10, i => SheetSpec.FreshHeader(10).(visible := i != 3))
  }

  lemma {:induction false} HiddenRowTakesNoRoom(i: nat)
    requires i <= 10
    ensures SheetPixels.Left(RowsWithOneHidden(), 0, i) == 10 * i - if i > 3 then 10 else 0
  {
    if i > 0 {
      HiddenRowTakesNoRoom(i - 1);
      SheetPixels.LeftNext(RowsWithOneHidden(), 0, i - 1);
    }
  }

  /** Rows laid out like that. */
  ghost predicate OneHidden(rows: seq<SheetSpec.Header>) {
    && |rows| == 10
    && (forall i | 0 <= i < 10 :: rows[i].size == 10 && (rows[i].visible <==> i != 3))
    && (forall i: nat | i <= 10 :: SheetPixels.Left(rows, 0, i) == 10 * i - if i > 3 then 10 else 0)
  }

  /** A pixel in the first row, and one just below the third. */
  lemma WherePixelsAre(rows: seq<SheetSpec.Header>)
    requires OneHidden(rows)
    ensures SheetPixels.IsAt(rows, 0, 5, 0) && SheetPixels.IsAt(rows, 0, 31, 4)
  {
    assert SheetPixels.Left(rows, 0, 0) == 0 && SheetPixels.Left(rows, 0, 4) == 30;
  }

  lemma HidesOne()
    ensures OneHidden(RowsWithOneHidden())
  {
    forall i: nat | i <= 10 ensures SheetPixels.Left(RowsWithOneHidden(), 0, i) == 10 * i - if i > 3 then 10 else 0 {
      HiddenRowTakesNoRoom(i);
    }
  }

  /** The lookups of those two pixels; the second passes over the hidden row. */
  method LookUp(rows: seq<SheetSpec.Header>) returns (first: nat, below: nat)
    requires OneHidden(rows)
    ensures first == 0 && below == 4
  {
    first := SheetPixels.FromPixel(rows, 0, 5);
    below := SheetPixels.FromPixel(rows, 0, 31);
    WherePixelsAre(rows);
    SheetPixels.LookupMonotone(rows, 0, 5, 5, first, 0);
    SheetPixels.LookupMonotone(rows, 0, 31, 31, below, 4);
    SheetPixels.LookupMonotone(rows, 0, 31, 31, 4, below);
  }

  /** Grabbed just below its corner, where a row is hidden, it reaches the first row. */
  method PulledFromBehindHiddenRow() returns (s: Selection)
    ensures s.Valid() && s.inResize && s.range == Range(2, 2, 2, 3) && s.dragRange == Range(0, 2, 2, 3)
  {
    HidesOne();
    var first, below := LookUp(RowsWithOneHidden());
    s := Select(2, 2, 2, 3);
    s.DoMotion(Position(below, 3), false, false, false, true);
    s.DoPress(Position(below, 3), true, true, None);
    s.DoMotion(Position(first, 3), true, false, false, false);
  }
}
