/**
 The cached pixel offsets of rows and columns, and the lookups that scan sizes instead of
 reading the cache. Rows and columns use the same code, so one model serves both: `base`
 is where the first row or column starts in the window, its scroll offset plus the title area.
 */
module SheetPixels {
  import opened SheetSpec

  function Left(s: seq<Header>, base: int, i: nat): int
    requires i <= |s|
  {
    base + VisibleSize(s[..i])
  }

  /** `i` is the answer for pixel `x`: the first visible header that reaches it, or else an end of the sheet. */
  ghost predicate IsAt(s: seq<Header>, base: int, x: int, i: nat) {
    && i < |s|
    && if x < base then i == 0
       else
         && (forall p | 0 <= p < i && s[p].visible :: Left(s, base, p) + s[p].size < x)
         && ((s[i].visible && Left(s, base, i) <= x <= Left(s, base, i) + s[i].size)
             || (i == |s| - 1 && (s[i].visible ==> Left(s, base, i) + s[i].size < x)))
  }

  /** ROW_FROM_YPIXEL and COLUMN_FROM_XPIXEL: a scan that never looks at the cached offsets. */
  method FromPixel(s: seq<Header>, base: int, x: int) returns (at: nat)
    requires s != []
    ensures IsAt(s, base, x, at)
  {
    var c := base;
    if x < c { return 0; }
    for i := 0 to |s|
      invariant c == Left(s, base, i) <= x
      invariant forall p | 0 <= p < i && s[p].visible :: Left(s, base, p) + s[p].size < x
    {
      LeftNext(s, base, i);
      if x >= c && x <= c + s[i].size && s[i].visible { return i; }
      if s[i].visible { c := c + s[i].size; }
    }
    return |s| - 1;
  }

  lemma LeftNext(s: seq<Header>, base: int, i: nat)
    requires i < |s|
    ensures Left(s, base, i + 1) == Left(s, base, i) + Extent(s[i])
  {
    assert s[..i + 1][..i] == s[..i];
  }

  lemma {:induction false} LeftMonotone(s: seq<Header>, base: int, i: nat, j: nat)
    requires i <= j <= |s|
    ensures Left(s, base, i) <= Left(s, base, j)
    decreases j - i
  {
    if i < j {
      LeftNext(s, base, j - 1);
      LeftMonotone(s, base, i, j - 1);
    }
  }

  /** A pixel further on is never in an earlier row; in particular there is only one answer. */
  lemma LookupMonotone(s: seq<Header>, base: int, x: int, y: int, i: nat, j: nat)
    requires x <= y && IsAt(s, base, x, i) && IsAt(s, base, y, j)
    ensures i <= j
  {
  }

  /** A cache is up to date when recomputing it changes nothing. */
  ghost predicate Current(s: seq<Header>, origin: int) {
    Recalc(s, origin) == s
  }

  lemma CurrentPixel(s: seq<Header>, origin: int, i: nat)
    requires Current(s, origin) && i < |s|
    ensures s[i].pixel == Left(s, origin, i)
  {
    assert Recalc(s, origin)[i] == s[i];
  }

  /** Recomputing makes a cache current; its offsets are the sums of the visible sizes before them. */
  lemma RecalcIsCurrent(s: seq<Header>, origin: int)
    ensures Current(Recalc(s, origin), origin)
    ensures forall i | 0 <= i < |s| :: Recalc(s, origin)[i].pixel == Left(s, origin, i)
  {
    SameRecalc(Recalc(s, origin), s, origin);
  }

  /** The scan inverts the cache: inside a visible row, its own left edge excluded, it finds that row. */
  lemma LookupInvertsCache(s: seq<Header>, origin: int, offset: int, x: int, c: nat, i: nat)
    requires Current(s, origin) && c < |s| && s[c].visible
    requires offset + s[c].pixel < x <= offset + s[c].pixel + s[c].size
    requires IsAt(s, offset + origin, x, i)
    ensures i == c
  {
    var base := offset + origin;
    CurrentPixel(s, origin, c);
    LeftMonotone(s, base, 0, c);
    if i < c {
      LeftNext(s, base, i);
      LeftMonotone(s, base, i + 1, c);
    }
  }

  // ----- offsets after appending

  lemma {:induction false} RecalcAppend(s: seq<Header>, h: Header, origin: int)
    ensures Recalc(s + [h], origin) == Recalc(s, origin) + [h.(pixel := origin + VisibleSize(s))]
  {
    var t := s + [h];
    forall i | 0 <= i < |t| ensures t[..i] == if i < |s| then s[..i] else s { }
  }

  /** A fresh header behind one whose size counts in full keeps the cache current. */
  lemma NextFreshCurrent(s: seq<Header>, size: nat, origin: int)
    requires Current(s, origin)
    requires s != [] ==> s[|s| - 1].size == Extent(s[|s| - 1])
    ensures Current(s + [NextFresh(s, size, origin)], origin)
  {
    if s != [] { CurrentPixel(s, origin, |s| - 1); }
    RecalcAppend(s, NextFresh(s, size, origin), origin);
  }

  /** Headers appended behind a visible one keep the cache current. */
  lemma {:induction false} AppendFreshCurrent(s: seq<Header>, n: nat, size: nat, origin: int)
    requires Current(s, origin)
    requires s != [] ==> s[|s| - 1].size == Extent(s[|s| - 1])
    ensures Current(AppendFresh(s, n, size, origin), origin)
    decreases n
  {
    if n > 0 {
      NextFreshCurrent(s, size, origin);
      AppendFreshNext(s, n, size, origin);
      AppendFreshCurrent(s + [NextFresh(s, size, origin)], n - 1, size, origin);
    } else {
      assert AppendFresh(s, 0, size, origin) == s;
    }
  }

  /** Appending keeps a current cache current exactly when the last header is not a hidden one with a size. */
  lemma AppendFreshCurrentExactly(s: seq<Header>, n: nat, size: nat, origin: int)
    requires Current(s, origin)
    ensures Current(AppendFresh(s, n, size, origin), origin) <==>
            n == 0 || s == [] || s[|s| - 1].visible || s[|s| - 1].size == 0
  {
    if n == 0 {
    } else if s == [] || s[|s| - 1].visible || s[|s| - 1].size == 0 {
      AppendFreshCurrent(s, n, size, origin);
    } else {
      var t := AppendFresh(s, n, size, origin);
      var first := AppendFresh(s, 1, size, origin);
      AppendFreshFrom(s, 1, n - 1, size, origin);
      assert t[..|s| + 1] == first && first[..|s|] == s;
      assert t[..|s|] == s;
      CurrentPixel(s, origin, |s| - 1);
      LeftNext(s, origin, |s| - 1);
      if Current(t, origin) { CurrentPixel(t, origin, |s|); }
    }
  }
}
