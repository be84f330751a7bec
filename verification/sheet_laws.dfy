/**
 The sheet operations field by field: what a new row or column looks like, which headers stay
 as they were, where their offsets begin, and how far the store reaches.
 */
module SheetLaws {
  import opened Wrappers
  import opened SheetRange
  import opened SheetSpec

  /** A row or column nobody has changed. */
  ghost predicate IsNew(h: Header, size: nat) {
    h.size == size && h.requisition == size && h.visible && h.sensitive && h.name == None && h.title == None
  }

  /** Two headers that differ in their offsets at most. */
  ghost predicate SameLooks(h: Header, g: Header) {
    && h.size == g.size && h.requisition == g.requisition && h.visible == g.visible && h.sensitive == g.sensitive
    && h.name == g.name && h.title == g.title
  }

  /** The offset of header `p` begins at `origin`, or where the visible header before it ends. */
  ghost predicate OffsetRight(s: seq<Header>, origin: int, p: nat)
    requires p < |s|
  {
    s[p].pixel == if p == 0 then origin else s[p - 1].pixel + if s[p - 1].visible then s[p - 1].size else 0
  }

  lemma RecalcLaw(s: seq<Header>, origin: int, p: nat)
    requires p < |s|
    ensures SameLooks(Recalc(s, origin)[p], s[p]) && OffsetRight(Recalc(s, origin), origin, p)
  {
    if p > 0 { assert s[..p][..p - 1] == s[..p - 1]; }
  }

  lemma InsertedHeader(s: seq<Header>, k: nat, n: nat, size: nat, origin: int, p: nat)
    requires k <= |s| && p < |s| + n
    ensures var t := Recalc(Insert(s, k, Repeat(n, FreshHeader(size))), origin);
            && |t| == |s| + n && OffsetRight(t, origin, p)
            && if p < k then SameLooks(t[p], s[p]) else if p < k + n then IsNew(t[p], size) else SameLooks(t[p], s[p - n])
  {
    InsertElement(s, k, Repeat(n, FreshHeader(size)), p);
    RecalcLaw(Insert(s, k, Repeat(n, FreshHeader(size))), origin, p);
  }

  /** Inserted rows have the default height, inserted columns 80 pixels; the others keep their looks. */
  lemma InsertedHeaders(m: Model, k: nat, n: nat, su: Setup, p: nat)
    ensures k <= |m.rows| && p < |m.rows| + n ==>
              var rows := InsertRows(m, k, n, su).rows;
              && |rows| == |m.rows| + n && OffsetRight(rows, su.top, p)
              && if p < k then SameLooks(rows[p], m.rows[p])
                 else if p < k + n then IsNew(rows[p], su.rowHeight) else SameLooks(rows[p], m.rows[p - n])
    ensures k <= |m.cols| && p < |m.cols| + n ==>
              var cols := InsertColumns(m, k, n, su).cols;
              && |cols| == |m.cols| + n && OffsetRight(cols, su.left, p)
              && if p < k then SameLooks(cols[p], m.cols[p])
                 else if p < k + n then IsNew(cols[p], 80) else SameLooks(cols[p], m.cols[p - n])
  {
    if k <= |m.rows| && p < |m.rows| + n { InsertedHeader(m.rows, k, n, su.rowHeight, su.top, p); }
    if k <= |m.cols| && p < |m.cols| + n { InsertedHeader(m.cols, k, n, 80, su.left, p); }
  }

  lemma DeletedHeader(s: seq<Header>, k: nat, n: nat, origin: int, p: nat)
    requires k < |s| && p < |s| - Min(n, |s| - k)
    ensures var t := Recalc(Delete(s, k, n), origin);
            && |t| == |s| - Min(n, |s| - k) && OffsetRight(t, origin, p)
            && SameLooks(t[p], s[if p < k then p else p + Min(n, |s| - k)])
  {
    DeletedElement(s, k, n, p);
    RecalcLaw(Delete(s, k, n), origin, p);
  }

  /** Behind a deletion the other rows or columns are as they were, at their new offsets. */
  lemma DeletedHeaders(m: Model, k: nat, n: nat, su: Setup, p: nat)
    requires n > 0
    ensures k < |m.rows| && p < |m.rows| - Min(n, |m.rows| - k) ==>
              var rows := DeleteRows(m, k, n, su).rows;
              && |rows| == |m.rows| - Min(n, |m.rows| - k) && OffsetRight(rows, su.top, p)
              && SameLooks(rows[p], m.rows[if p < k then p else p + Min(n, |m.rows| - k)])
    ensures k < |m.cols| && p < |m.cols| - Min(n, |m.cols| - k) ==>
              var cols := DeleteColumns(m, k, n, su).cols;
              && |cols| == |m.cols| - Min(n, |m.cols| - k) && OffsetRight(cols, su.left, p)
              && SameLooks(cols[p], m.cols[if p < k then p else p + Min(n, |m.cols| - k)])
  {
    if k < |m.rows| && p < |m.rows| - Min(n, |m.rows| - k) { DeletedHeader(m.rows, k, n, su.top, p); }
    if k < |m.cols| && p < |m.cols| - Min(n, |m.cols| - k) { DeletedHeader(m.cols, k, n, su.left, p); }
  }

  /** An appended header is new, and begins where the one before it would end if that were visible. */
  lemma {:induction false} AppendedHeader(s: seq<Header>, n: nat, size: nat, origin: int, p: nat)
    requires p < |s| + n
    ensures var t := AppendFresh(s, n, size, origin);
            && |t| == |s| + n
            && if p < |s| then t[p] == s[p]
               else IsNew(t[p], size) && t[p].pixel == if p == 0 then origin else t[p - 1].pixel + t[p - 1].size
    decreases n
  {
    if n > 0 {
      var next := s + [NextFresh(s, size, origin)];
      AppendFreshNext(s, n, size, origin);
      AppendedHeader(next, n - 1, size, origin, p);
      if 0 < p == |s| { AppendedHeader(next, n - 1, size, origin, p - 1); }
    }
  }

  /** Rows and columns at the end leave the others alone, offsets too. */
  lemma AppendedHeaders(m: Model, n: nat, su: Setup, p: nat)
    ensures p < |m.rows| + n ==>
              var rows := AddRows(m, n, su).rows;
              && |rows| == |m.rows| + n
              && if p < |m.rows| then rows[p] == m.rows[p]
                 else IsNew(rows[p], su.rowHeight) && rows[p].pixel == if p == 0 then su.top else rows[p - 1].pixel + rows[p - 1].size
    ensures p < |m.cols| + n ==>
              var cols := AddColumns(m, n, su).cols;
              && |cols| == |m.cols| + n
              && if p < |m.cols| then cols[p] == m.cols[p]
                 else IsNew(cols[p], 80) && cols[p].pixel == if p == 0 then su.left else cols[p - 1].pixel + cols[p - 1].size
  {
    if p < |m.rows| + n { AppendedHeader(m.rows, n, su.rowHeight, su.top, p); }
    if p < |m.cols| + n { AppendedHeader(m.cols, n, 80, su.left, p); }
  }

  /** A new sheet: new rows and columns side by side, no text, and the store reaching to (1, 1). */
  lemma NewSheet(rows: nat, columns: nat, su: Setup, p: nat, r: int, c: int)
    ensures var m := NewModel(rows, columns, su);
            && |m.rows| == rows && |m.cols| == columns && m.allocRow == 1 && m.allocCol == 1 && TextAt(m, r, c) == ""
            && (p < rows ==> IsNew(m.rows[p], su.rowHeight) && OffsetRight(m.rows, su.top, p))
            && (p < columns ==> IsNew(m.cols[p], 80) && OffsetRight(m.cols, su.left, p))
  {
    var m := NewModel(rows, columns, su);
    if p < rows { AppendedHeader([], rows, su.rowHeight, su.top, p); }
    if 0 < p < rows { AppendedHeader([], rows, su.rowHeight, su.top, p - 1); }
    if p < columns { AppendedHeader([], columns, 80, su.left, p); }
    if 0 < p < columns { AppendedHeader([], columns, 80, su.left, p - 1); }
  }

  /** What an operation on rows leaves of the columns, and the other way round. */
  lemma OtherSideStays(m: Model, k: nat, n: nat, su: Setup)
    ensures InsertRows(m, k, n, su).cols == DeleteRows(m, k, n, su).cols == AddRows(m, n, su).cols == m.cols
    ensures InsertRows(m, k, n, su).allocCol == DeleteRows(m, k, n, su).allocCol == AddRows(m, n, su).allocCol == m.allocCol
    ensures InsertColumns(m, k, n, su).rows == DeleteColumns(m, k, n, su).rows == AddColumns(m, n, su).rows == m.rows
    ensures InsertColumns(m, k, n, su).allocRow == DeleteColumns(m, k, n, su).allocRow == AddColumns(m, n, su).allocRow == m.allocRow
  {
  }

  predicate InBand(r: int, k: nat, n: nat) {
    k <= r < k + n
  }

  /** The indices up to `bound` that a deletion leaves. */
  function Left(bound: int, k: nat, n: nat): set<int> {
    set r: int | 0 <= r <= bound && !InBand(r, k, n)
  }

  /** The store grows by what is inserted into it, and shrinks by as many rows or columns as it had in the band. */
  lemma BoundsMove(m: Model, k: nat, n: nat, su: Setup)
    ensures InsertRows(m, k, n, su).allocRow - m.allocRow == if k <= m.allocRow then n else 0
    ensures InsertColumns(m, k, n, su).allocCol - m.allocCol == if k <= m.allocCol then n else 0
    ensures -1 <= m.allocRow && k < |m.rows| ==> DeleteRows(m, k, n, su).allocRow + 1 == |Left(m.allocRow, k, n)|
    ensures -1 <= m.allocCol && k < |m.cols| ==> DeleteColumns(m, k, n, su).allocCol + 1 == |Left(m.allocCol, k, n)|
  {
    if m.allocRow >= -1 { Remaining(m.allocRow, k, n); }
    if m.allocCol >= -1 { Remaining(m.allocCol, k, n); }
  }

  lemma {:induction false} Remaining(bound: int, k: nat, n: nat)
    requires bound >= -1
    ensures |Left(bound, k, n)| == ShrunkBound(bound, k, n) + 1
    decreases bound
  {
    if bound == -1 {
      assert Left(bound, k, n) == {};
    } else {
      Remaining(bound - 1, k, n);
      assert Left(bound, k, n) == if InBand(bound, k, n) then Left(bound - 1, k, n) else Left(bound - 1, k, n) + {bound};
    }
  }
}
