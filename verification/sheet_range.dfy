/** Places on a sheet: single ones and closed rectangles of them. */
module SheetRange {
  datatype Position = Position(row: int, col: int)

  /** GtkSheetRange: a closed rectangle of cells. */
  datatype Range = Range(row0: int, col0: int, rowi: int, coli: int) {
    predicate Within(maxRow: int, maxCol: int) {
      0 <= row0 <= rowi <= maxRow && 0 <= col0 <= coli <= maxCol
    }

    predicate Holds(row: int, col: int) {
      row0 <= row <= rowi && col0 <= col <= coli
    }

    predicate Contains(other: Range) {
      row0 <= other.row0 && other.rowi <= rowi && col0 <= other.col0 && other.coli <= coli
    }

    function TopLeft(): (p: Position)
      ensures forall row, col | Holds(row, col) :: Holds(p.row, p.col) && p.row <= row && p.col <= col
    {
      Position(row0, col0)
    }

    function BottomRight(): (p: Position)
      ensures forall row, col | Holds(row, col) :: Holds(p.row, p.col) && row <= p.row && col <= p.col
    {
      Position(rowi, coli)
    }
  }

  /** One range contains another, which is not empty, when it holds all of its cells. */
  lemma ContainsMeansHolds(a: Range, b: Range)
    requires b.row0 <= b.rowi && b.col0 <= b.coli
    ensures a.Contains(b) <==> forall row, col | b.Holds(row, col) :: a.Holds(row, col)
  {
    if forall row, col | b.Holds(row, col) :: a.Holds(row, col) {
      assert b.Holds(b.row0, b.col0) && b.Holds(b.rowi, b.coli);
    }
  }
}
