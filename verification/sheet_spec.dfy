/**
 The spreadsheet as its users see it: row and column headers and a rectangle of texts.
 The empty string stands for a cell without text, as for a caller of
 gtk_sheet_cell_get_text, who cannot tell an empty text from an absent one.
 The allocated bounds are kept because what an insertion or deletion does to them is
 part of what the store promises.
 */
module SheetSpec {
  import opened Wrappers
  import opened SheetRange

  const DEFAULT_COLUMN_WIDTH: nat := 80

  /** GtkSheetRow and GtkSheetColumn: `size` is the height or the width, `pixel` the cached offset. */
  datatype Header = Header(
    size: nat, requisition: nat, visible: bool, sensitive: bool,
    name: Option<string>, title: Option<string>, pixel: int)

  function FreshHeader(size: nat): Header {
    Header(size, size, true, true, None, None, 0)
  }

  /** A header without its cached offset. */
  function Bare(h: Header): Header {
    h.(pixel := 0)
  }

  function Repeat<T>(n: nat, x: T): (r: seq<T>) {
    seq(n, _ => x)
  }

  /** `xs` put in front of position `k`, or at the end when there is no such position. */
  function Insert<T>(s: seq<T>, k: nat, xs: seq<T>): seq<T> {
    if k <= |s| then s[..k] + xs + s[k..] else s + xs
  }

  /** `s` without the at most `n` elements from position `k` on. */
  function Delete<T>(s: seq<T>, k: nat, n: nat): seq<T> {
    if k < |s| then s[..k] + s[Min(k + n, |s|)..] else s
  }

  function Extent(h: Header): nat {
    if h.visible then h.size else 0
  }

  /** The total visible size of a run of headers. */
  function VisibleSize(s: seq<Header>): nat {
    if s == [] then 0 else VisibleSize(s[..|s| - 1]) + Extent(s[|s| - 1])
  }

  /** All cached offsets recomputed from `origin`. */
  function Recalc(s: seq<Header>, origin: int): (r: seq<Header>)
    ensures |r| == |s|
  {
    seq(|s|, i requires 0 <= i < |s| => s[i].(pixel := origin + VisibleSize(s[..i])))
  }

  /** The fresh header behind `s`, its offset taken from the header before it. */
  function NextFresh(s: seq<Header>, size: nat, origin: int): Header {
    FreshHeader(size).(pixel := if s == [] then origin else s[|s| - 1].pixel + s[|s| - 1].size)
  }

  /** `n` fresh headers appended one by one, each offset taken from the header before it. */
  function AppendFresh(s: seq<Header>, n: nat, size: nat, origin: int): (r: seq<Header>)
    ensures |r| == |s| + n
    ensures r[..|s|] == s
    ensures forall i | |s| <= i < |r| :: Bare(r[i]) == FreshHeader(size)
    decreases n
  {
    if n == 0 then s
    else AppendFresh(s + [NextFresh(s, size, origin)], n - 1, size, origin)
  }

  type Grid = seq<seq<string>>

  /** Everything the store promises about a sheet. */
  datatype Model = Model(rows: seq<Header>, cols: seq<Header>, grid: Grid, allocRow: int, allocCol: int)

  /** The settings that stay fixed: the default row height and the offsets of the first row and column. */
  datatype Setup = Setup(rowHeight: nat, top: int, left: int)

  ghost predicate Rectangle(g: Grid, height: nat, width: nat) {
    |g| == height && forall r | 0 <= r < |g| :: |g[r]| == width
  }

  /** A rectangle of the right size, with text only inside the allocated bounds. */
  ghost predicate Good(m: Model) {
    && Rectangle(m.grid, |m.rows|, |m.cols|)
    && -1 <= m.allocRow < |m.rows|
    && -1 <= m.allocCol < |m.cols|
    && (forall r, c | 0 <= r < |m.rows| && 0 <= c < |m.cols| :: m.grid[r][c] != "" ==> r <= m.allocRow && c <= m.allocCol)
  }

  function TextAt(m: Model, r: int, c: int): string {
    if 0 <= r < |m.grid| && 0 <= c < |m.grid[r]| then m.grid[r][c] else ""
  }

  // ----- the operations

  function EmptyRow(width: nat): (row: seq<string>) {
    Repeat(width, "")
  }

  function AddRows(m: Model, n: nat, su: Setup): Model {
    m.(rows := AppendFresh(m.rows, n, su.rowHeight, su.top), grid := m.grid + Repeat(n, EmptyRow(|m.cols|)))
  }

  function AddColumns(m: Model, n: nat, su: Setup): Model {
    m.(cols := AppendFresh(m.cols, n, DEFAULT_COLUMN_WIDTH, su.left),
       grid := seq(|m.grid|, r requires 0 <= r < |m.grid| => m.grid[r] + Repeat(n, "")))
  }

  function InsertRows(m: Model, k: nat, n: nat, su: Setup): Model {
    m.(rows := Recalc(Insert(m.rows, k, Repeat(n, FreshHeader(su.rowHeight))), su.top),
       grid := Insert(m.grid, k, Repeat(n, EmptyRow(|m.cols|))),
       allocRow := if k <= m.allocRow then m.allocRow + n else m.allocRow)
  }

  function InsertColumns(m: Model, k: nat, n: nat, su: Setup): Model {
    m.(cols := Recalc(Insert(m.cols, k, Repeat(n, FreshHeader(DEFAULT_COLUMN_WIDTH))), su.left),
       grid := seq(|m.grid|, r requires 0 <= r < |m.grid| => Insert(m.grid[r], k, Repeat(n, ""))),
       allocCol := if k <= m.allocCol then m.allocCol + n else m.allocCol)
  }

  function ShrunkBound(bound: int, k: nat, n: nat): int {
    if k <= bound then bound - Min(n, bound - k + 1) else bound
  }

  function DeleteRows(m: Model, k: nat, n: nat, su: Setup): Model {
    if n == 0 || k >= |m.rows| then m
    else m.(rows := Recalc(Delete(m.rows, k, n), su.top),
            grid := Delete(m.grid, k, n),
            allocRow := ShrunkBound(m.allocRow, k, n))
  }

  function DeleteColumns(m: Model, k: nat, n: nat, su: Setup): Model {
    if n == 0 || k >= |m.cols| then m
    else m.(cols := Recalc(Delete(m.cols, k, n), su.left),
            grid := seq(|m.grid|, r requires 0 <= r < |m.grid| => Delete(m.grid[r], k, n)),
            allocCol := ShrunkBound(m.allocCol, k, n))
  }

  /** A text written into a cell; outside the sheet nothing happens. */
  function SetText(m: Model, r: int, c: int, text: string): Model {
    if 0 <= r < |m.grid| && 0 <= c < |m.grid[r]| then
      m.(grid := m.grid[r := m.grid[r][c := text]],
         allocRow := Max(m.allocRow, r), allocCol := Max(m.allocCol, c))
    else m
  }

  /** All cells of the range emptied. */
  function ClearRange(m: Model, g: Range): Model {
    m.(grid := seq(|m.grid|, r requires 0 <= r < |m.grid| =>
         seq(|m.grid[r]|, c requires 0 <= c < |m.grid[r]| =>
           if g.Holds(r, c) then "" else m.grid[r][c])))
  }

  /** Every column from `k` on emptied. */
  function EmptiedFrom(m: Model, k: nat): Model {
    ClearRange(m, Range(0, k, |m.rows|, |m.cols|))
  }

  /** The sheet as gtk_sheet_new builds it. */
  function NewModel(rows: nat, columns: nat, su: Setup): Model {
    Model(AppendFresh([], rows, su.rowHeight, su.top), AppendFresh([], columns, DEFAULT_COLUMN_WIDTH, su.left),
          Repeat(rows, EmptyRow(columns)), 1, 1)
  }

  // ----- about the operations

  lemma InsertElement<T>(s: seq<T>, k: nat, xs: seq<T>, p: nat)
    requires p < |s| + |xs|
    ensures |Insert(s, k, xs)| == |s| + |xs|
    ensures p < k && p < |s| ==> Insert(s, k, xs)[p] == s[p]
    ensures Min(k, |s|) <= p < Min(k, |s|) + |xs| ==> Insert(s, k, xs)[p] == xs[p - Min(k, |s|)]
    ensures k + |xs| <= p ==> Insert(s, k, xs)[p] == s[p - |xs|]
  {
    var r := Insert(s, k, xs);
    if k <= |s| {
      assert r == s[..k] + (xs + s[k..]);
      if k <= p { assert r[p] == (xs + s[k..])[p - k]; }
    }
  }

  /** Recomputed offsets depend on nothing but the bare headers. */
  lemma {:induction false} SameVisibleSize(s: seq<Header>, t: seq<Header>)
    requires |s| == |t| && forall i | 0 <= i < |s| :: Bare(s[i]) == Bare(t[i])
    ensures VisibleSize(s) == VisibleSize(t)
  {
    if s != [] {
      var n := |s| - 1;
      assert Bare(s[n]) == Bare(t[n]);
      SameVisibleSize(s[..n], t[..n]);
    }
  }

  lemma SameRecalc(s: seq<Header>, t: seq<Header>, origin: int)
    requires |s| == |t| && forall i | 0 <= i < |s| :: Bare(s[i]) == Bare(t[i])
    ensures Recalc(s, origin) == Recalc(t, origin)
  {
    forall i | 0 <= i < |s| ensures Recalc(s, origin)[i] == Recalc(t, origin)[i] {
      assert Bare(s[i]) == Bare(t[i]);
      SameVisibleSize(s[..i], t[..i]);
    }
  }

  /** Headers that stayed, sank by `n`, or are fresh, are those of an insertion once their offsets are recomputed. */
  lemma RecalcInserted(s: seq<Header>, before: seq<Header>, k: nat, n: nat, size: nat, origin: int)
    requires |s| == |before| + n
    requires forall p | 0 <= p < |before| && p < k :: Bare(s[p]) == Bare(before[p])
    requires forall p | Min(k, |before|) <= p < Min(k, |before|) + n :: Bare(s[p]) == FreshHeader(size)
    requires forall p | k + n <= p < |s| :: Bare(s[p]) == Bare(before[p - n])
    ensures Recalc(s, origin) == Recalc(Insert(before, k, Repeat(n, FreshHeader(size))), origin)
  {
    var t := Insert(before, k, Repeat(n, FreshHeader(size)));
    forall p | 0 <= p < |s| ensures Bare(s[p]) == Bare(t[p]) {
      InsertElement(before, k, Repeat(n, FreshHeader(size)), p);
    }
    SameRecalc(s, t, origin);
  }

  /** What InsertRows shows in each cell. */
  lemma InsertedRowText(m: Model, k: nat, n: nat, su: Setup, r: int, c: int)
    requires Rectangle(m.grid, |m.rows|, |m.cols|)
    ensures Rectangle(InsertRows(m, k, n, su).grid, |m.rows| + n, |m.cols|)
    ensures TextAt(InsertRows(m, k, n, su), r, c) ==
            if r < k then TextAt(m, r, c) else if r < k + n then "" else TextAt(m, r - n, c)
  {
    var gap := Repeat(n, EmptyRow(|m.cols|));
    var grid := Insert(m.grid, k, gap);
    forall p | 0 <= p < |m.grid| + n ensures |grid[p]| == |m.cols| {
      InsertElement(m.grid, k, gap, p);
    }
    if 0 <= r < |m.grid| + n {
      InsertElement(m.grid, k, gap, r);
      if Min(k, |m.grid|) <= r < Min(k, |m.grid|) + n {
        assert grid[r] == EmptyRow(|m.cols|);
      }
    }
  }

  /** What InsertColumns shows in each cell. */
  lemma InsertedColumnText(m: Model, k: nat, n: nat, su: Setup, r: int, c: int)
    requires Rectangle(m.grid, |m.rows|, |m.cols|)
    ensures Rectangle(InsertColumns(m, k, n, su).grid, |m.rows|, |m.cols| + n)
    ensures TextAt(InsertColumns(m, k, n, su), r, c) ==
            if c < k then TextAt(m, r, c) else if c < k + n then "" else TextAt(m, r, c - n)
  {
    var grid := InsertColumns(m, k, n, su).grid;
    if 0 <= r < |m.grid| && 0 <= c < |m.cols| + n {
      InsertElement(m.grid[r], k, Repeat(n, ""), c);
    }
    forall p | 0 <= p < |m.grid| ensures |grid[p]| == |m.cols| + n {
      if |m.cols| + n > 0 { InsertElement(m.grid[p], k, Repeat(n, ""), 0); }
    }
  }

  /** A band that reaches beyond the end is the one up to the end. */
  lemma DeleteRowsCapped(m: Model, k: nat, n: nat, su: Setup)
    requires k < |m.rows| == |m.grid| && m.allocRow < |m.rows|
    ensures DeleteRows(m, k, n, su) == DeleteRows(m, k, Min(n, |m.rows| - k), su)
  {
  }

  lemma DeleteColumnsCapped(m: Model, k: nat, n: nat, su: Setup)
    requires Rectangle(m.grid, |m.rows|, |m.cols|) && k < |m.cols| && m.allocCol < |m.cols|
    ensures DeleteColumns(m, k, n, su) == DeleteColumns(m, k, Min(n, |m.cols| - k), su)
  {
    var a, b := DeleteColumns(m, k, n, su), DeleteColumns(m, k, Min(n, |m.cols| - k), su);
    forall r | 0 <= r < |m.grid| ensures a.grid[r] == b.grid[r] {
      assert Delete(m.grid[r], k, n) == Delete(m.grid[r], k, Min(n, |m.cols| - k));
    }
  }

  lemma DeletedElement<T>(s: seq<T>, k: nat, n: nat, p: nat)
    requires k < |s| && p < |s| - Min(n, |s| - k)
    ensures |Delete(s, k, n)| == |s| - Min(n, |s| - k)
    ensures Delete(s, k, n)[p] == s[if p < k then p else p + Min(n, |s| - k)]
  {
  }

  lemma DeletedRowText(m: Model, k: nat, n: nat, su: Setup, r: int, c: int)
    requires Rectangle(m.grid, |m.rows|, |m.cols|) && k < |m.rows|
    ensures Rectangle(DeleteRows(m, k, n, su).grid, |m.rows| - Min(n, |m.rows| - k), |m.cols|)
    ensures TextAt(DeleteRows(m, k, n, su), r, c) == TextAt(m, if r < k then r else r + Min(n, |m.rows| - k), c)
  {
    forall p | 0 <= p < |m.rows| - Min(n, |m.rows| - k)
      ensures |DeleteRows(m, k, n, su).grid| == |m.rows| - Min(n, |m.rows| - k)
      ensures DeleteRows(m, k, n, su).grid[p] == m.grid[if p < k then p else p + Min(n, |m.rows| - k)]
    {
      DeletedElement(m.grid, k, n, p);
    }
  }

  /** Each row loses the same columns. */
  lemma DeletedColumnShape(m: Model, k: nat, n: nat, su: Setup)
    requires Rectangle(m.grid, |m.rows|, |m.cols|) && k < |m.cols|
    ensures Rectangle(DeleteColumns(m, k, n, su).grid, |m.rows|, |m.cols| - Min(n, |m.cols| - k))
    ensures n > 0 ==> forall p | 0 <= p < |m.grid| :: DeleteColumns(m, k, n, su).grid[p] == Delete(m.grid[p], k, n)
  {
  }

  lemma DeletedColumnText(m: Model, k: nat, n: nat, su: Setup, r: int, c: int)
    requires Rectangle(m.grid, |m.rows|, |m.cols|) && k < |m.cols|
    ensures Rectangle(DeleteColumns(m, k, n, su).grid, |m.rows|, |m.cols| - Min(n, |m.cols| - k))
    ensures TextAt(DeleteColumns(m, k, n, su), r, c) == TextAt(m, r, if c < k then c else c + Min(n, |m.cols| - k))
  {
    DeletedColumnShape(m, k, n, su);
    if n > 0 && 0 <= r < |m.grid| && 0 <= c < |m.cols| - Min(n, |m.cols| - k) {
      DeletedElement(m.grid[r], k, n, c);
    }
  }

  lemma AppendFreshNext(s: seq<Header>, n: nat, size: nat, origin: int)
    requires n > 0
    ensures AppendFresh(s, n, size, origin) == AppendFresh(s + [NextFresh(s, size, origin)], n - 1, size, origin)
  {
  }

  /** Appending in two goes is appending at once. */
  lemma {:induction false} AppendFreshFrom(s: seq<Header>, a: nat, b: nat, size: nat, origin: int)
    ensures AppendFresh(AppendFresh(s, a, size, origin), b, size, origin) == AppendFresh(s, a + b, size, origin)
    decreases a
  {
    if a > 0 {
      AppendFreshNext(s, a, size, origin);
      AppendFreshNext(s, a + b, size, origin);
      AppendFreshFrom(s + [NextFresh(s, size, origin)], a - 1, b, size, origin);
    }
  }

  lemma AppendFreshTwice(a: nat, b: nat, size: nat, origin: int)
    ensures AppendFresh(AppendFresh([], a, size, origin), b, size, origin) == AppendFresh([], a + b, size, origin)
  {
    AppendFreshFrom([], a, b, size, origin);
  }

  // ----- laws

  lemma DeleteInserted<T>(s: seq<T>, k: nat, xs: seq<T>)
    requires k <= |s|
    ensures Delete(Insert(s, k, xs), k, |xs|) == s
  {
    var t := Insert(s, k, xs);
    assert t == s[..k] + (xs + s[k..]);
    if k < |t| {
      assert t[..k] == s[..k];
      assert t[k + |xs|..] == s[k..];
    }
  }

  lemma RecalcDeleteRecalc(s: seq<Header>, k: nat, n: nat, origin: int)
    ensures Recalc(Delete(Recalc(s, origin), k, n), origin) == Recalc(Delete(s, k, n), origin)
  {
    var t := Delete(Recalc(s, origin), k, n);
    var u := Delete(s, k, n);
    forall p | 0 <= p < |t| ensures Bare(t[p]) == Bare(u[p]) {
      if k < |s| && p >= k {
        assert Bare(Recalc(s, origin)[p + Min(k + n, |s|) - k]) == Bare(s[p + Min(k + n, |s|) - k]);
      } else {
        assert Bare(Recalc(s, origin)[p]) == Bare(s[p]);
      }
    }
    SameRecalc(t, u, origin);
  }

  /** Rows inserted and deleted again leave the sheet as it was, with its offsets recomputed. */
  lemma InsertDeleteRows(m: Model, k: nat, n: nat, su: Setup)
    requires Good(m) && k <= |m.rows| && n > 0
    ensures DeleteRows(InsertRows(m, k, n, su), k, n, su) == m.(rows := Recalc(m.rows, su.top))
  {
    var gap := Repeat(n, FreshHeader(su.rowHeight));
    DeleteInserted(m.rows, k, gap);
    DeleteInserted(m.grid, k, Repeat(n, EmptyRow(|m.cols|)));
    RecalcDeleteRecalc(Insert(m.rows, k, gap), k, n, su.top);
  }

  lemma InsertDeleteColumns(m: Model, k: nat, n: nat, su: Setup)
    requires Good(m) && k <= |m.cols| && n > 0
    ensures DeleteColumns(InsertColumns(m, k, n, su), k, n, su) == m.(cols := Recalc(m.cols, su.left))
  {
    var gap := Repeat(n, FreshHeader(DEFAULT_COLUMN_WIDTH));
    DeleteInserted(m.cols, k, gap);
    RecalcDeleteRecalc(Insert(m.cols, k, gap), k, n, su.left);
    var grid := DeleteColumns(InsertColumns(m, k, n, su), k, n, su).grid;
    forall r | 0 <= r < |m.grid| ensures grid[r] == m.grid[r] {
      DeleteInserted(m.grid[r], k, Repeat(n, ""));
    }
  }

  /** Inserting no column keeps the texts exactly when there is none at or behind the insertion point. */
  lemma EmptiedFromIsIdentity(m: Model, k: nat)
    requires Good(m)
    ensures EmptiedFrom(m, k) == m <==> forall r: int, c: int | k <= c :: TextAt(m, r, c) == ""
  {
    var e := EmptiedFrom(m, k);
    if forall r: int, c: int | k <= c :: TextAt(m, r, c) == "" {
      forall r | 0 <= r < |m.grid| ensures e.grid[r] == m.grid[r] {
        assert forall c | 0 <= c < |m.grid[r]| :: TextAt(m, r, c) == m.grid[r][c];
      }
    } else {
      var r: int, c: int :| k <= c && TextAt(m, r, c) != "";
      assert e.grid[r][c] == "" != m.grid[r][c];
    }
  }
}
