/**
 Bottom-up merge sort on the positions 0, 1, ... of a list. Positions stand for the nodes of
 the input list, so that stability can be said: equal items stay in the order of their positions.
 */
module MergeSpec {
  import opened Wrappers
  import opened NaturalOrder

  predicate InRange(keys: seq<Item>, s: seq<nat>) {
    forall i | 0 <= i < |s| :: s[i] < |keys|
  }

  /** The order of a stable sort: by item, and by position among equals. */
  predicate Less(keys: seq<Item>, x: nat, y: nat)
    requires x < |keys| && y < |keys|
  {
    Order(keys[x], keys[y]) < 0 || (Order(keys[x], keys[y]) == 0 && x < y)
  }

  ghost predicate Sorted(keys: seq<Item>, s: seq<nat>)
    requires InRange(keys, s)
  {
    forall i, j {:trigger Less(keys, s[i], s[j])} | 0 <= i < j < |s| :: Less(keys, s[i], s[j])
  }

  /** The positions base, base + 1, ..., each once, in stable order. */
  ghost predicate Block(keys: seq<Item>, s: seq<nat>, base: nat) {
    && base + |s| <= |keys|
    && (forall i | 0 <= i < |s| :: base <= s[i] < base + |s|)
    && (forall x | base <= x < base + |s| :: x in s)
    && Sorted(keys, s)
  }

  /** Every aligned run of `k` positions is a block. */
  ghost predicate Blocks(keys: seq<Item>, s: seq<nat>, base: nat, k: nat)
    requires k > 0
  {
    if |s| <= k then Block(keys, s, base)
    else Block(keys, s[..k], base) && Blocks(keys, s[k..], base + k, k)
  }

  /** The merge: the first run gives way only to something smaller. */
  function Merge(keys: seq<Item>, p: seq<nat>, q: seq<nat>): (r: seq<nat>)
    requires InRange(keys, p) && InRange(keys, q)
    ensures |r| == |p| + |q|
    decreases |p| + |q|
  {
    if p == [] then q
    else if q == [] then p
    else if Order(keys[p[0]], keys[q[0]]) <= 0 then [p[0]] + Merge(keys, p[1..], q)
    else [q[0]] + Merge(keys, p, q[1..])
  }

  /** One pass over the list: runs of `k` merged two by two. */
  function Pass(keys: seq<Item>, s: seq<nat>, k: nat): (r: seq<nat>)
    requires InRange(keys, s) && k > 0
    ensures |r| == |s|
    decreases |s|
  {
    if s == [] then []
    else
      var a, b := Min(k, |s|), Min(2 * k, |s|);
      Merge(keys, s[..a], s[a..b]) + Pass(keys, s[b..], k)
  }

  /** The number of merges a pass makes. */
  function Merges(n: nat, k: nat): nat
    requires k > 0
  {
    if n == 0 then 0 else 1 + Merges(n - Min(2 * k, n), k)
  }

  /** The number of passes, the runs doubling until one merge takes in the whole list. */
  function Passes(n: nat, k: nat): nat
    requires k > 0
    decreases n - k
  {
    if n <= 2 * k then 1 else 1 + Passes(n, 2 * k)
  }

  /** `k` doubled `e` times. */
  function Doubled(k: nat, e: nat): nat
    decreases e
  {
    if e == 0 then k else Doubled(2 * k, e - 1)
  }

  // ----- facts

  lemma LessTransitive(keys: seq<Item>, x: nat, y: nat, z: nat)
    requires x < |keys| && y < |keys| && z < |keys| && Less(keys, x, y) && Less(keys, y, z)
    ensures Less(keys, x, z)
  {
    OrderTransitive(keys[x], keys[y], keys[z]);
  }

  lemma LessTotal(keys: seq<Item>, x: nat, y: nat)
    requires x < |keys| && y < |keys| && x != y
    ensures Less(keys, x, y) <==> !Less(keys, y, x)
  {
    OrderAntisymmetric(keys[x], keys[y]);
  }

  lemma {:induction false} MergeElements(keys: seq<Item>, p: seq<nat>, q: seq<nat>, x: nat)
    requires InRange(keys, p) && InRange(keys, q)
    ensures x in Merge(keys, p, q) <==> x in p || x in q
    decreases |p| + |q|
  {
    if p != [] && q != [] {
      if Order(keys[p[0]], keys[q[0]]) <= 0 {
        MergeElements(keys, p[1..], q, x);
        assert p == [p[0]] + p[1..];
      } else {
        MergeElements(keys, p, q[1..], x);
        assert q == [q[0]] + q[1..];
      }
    }
  }

  /** Whatever comes before both runs comes before their merge. */
  lemma Prepend(keys: seq<Item>, x: nat, s: seq<nat>)
    requires x < |keys| && InRange(keys, s) && Sorted(keys, s)
    requires s != [] ==> Less(keys, x, s[0])
    ensures Sorted(keys, [x] + s)
  {
    var t := [x] + s;
    forall i, j | 0 <= i < j < |t| ensures Less(keys, t[i], t[j]) {
      if i > 0 {
        assert t[i] == s[i - 1] && t[j] == s[j - 1];
      } else if j > 1 {
        assert Less(keys, s[0], s[j - 1]);
        LessTransitive(keys, x, s[0], s[j - 1]);
      }
    }
  }

  lemma {:induction false} MergeSorted(keys: seq<Item>, p: seq<nat>, q: seq<nat>)
    requires InRange(keys, p) && InRange(keys, q) && Sorted(keys, p) && Sorted(keys, q)
    requires forall i, j | 0 <= i < |p| && 0 <= j < |q| :: p[i] < q[j]
    ensures InRange(keys, Merge(keys, p, q)) && Sorted(keys, Merge(keys, p, q))
    decreases |p| + |q|
  {
    if p != [] && q != [] {
      if Order(keys[p[0]], keys[q[0]]) <= 0 {
        MergeSorted(keys, p[1..], q);
        var r := Merge(keys, p[1..], q);
        assert r[0] == q[0] || (|p| > 1 && r[0] == p[1]);
        Prepend(keys, p[0], r);
      } else {
        MergeSorted(keys, p, q[1..]);
        var r := Merge(keys, p, q[1..]);
        assert r[0] == p[0] || (|q| > 1 && r[0] == q[1]);
        LessTotal(keys, p[0], q[0]);
        Prepend(keys, q[0], r);
      }
    }
  }

  /** Two neighbouring blocks merge into one. */
  lemma MergeBlocks(keys: seq<Item>, p: seq<nat>, q: seq<nat>, base: nat)
    requires Block(keys, p, base) && Block(keys, q, base + |p|)
    ensures Block(keys, Merge(keys, p, q), base)
  {
    MergeSorted(keys, p, q);
    var r := Merge(keys, p, q);
    forall x: nat ensures x in r <==> base <= x < base + |r| {
      MergeElements(keys, p, q, x);
    }
    forall i | 0 <= i < |r| ensures base <= r[i] < base + |r| {
      assert r[i] in r;
    }
  }

  lemma {:induction false} BlocksInRange(keys: seq<Item>, s: seq<nat>, base: nat, k: nat)
    requires k > 0 && Blocks(keys, s, base, k)
    ensures InRange(keys, s) && base + |s| <= |keys|
    decreases |s|
  {
    if |s| > k {
      BlocksInRange(keys, s[k..], base + k, k);
      assert forall i | 0 <= i < |s| :: s[i] == if i < k then s[..k][i] else s[k..][i - k];
    }
  }

  /** The pass invariant: after the pass the blocks are twice as long. */
  lemma {:induction false} PassDoublesBlocks(keys: seq<Item>, s: seq<nat>, base: nat, k: nat)
    requires k > 0 && InRange(keys, s) && Blocks(keys, s, base, k)
    ensures Blocks(keys, Pass(keys, s, k), base, 2 * k)
    decreases |s|
  {
    if |s| <= 2 * k {
      LastPass(keys, s, base, k);
    } else {
      FirstBlocks(keys, s, base, k);
      MergeBlocks(keys, s[..k], s[k..2 * k], base);
      PassDoublesBlocks(keys, s[2 * k..], base + 2 * k, k);
      AppendBlock(keys, Merge(keys, s[..k], s[k..2 * k]), Pass(keys, s[2 * k..], k), base, 2 * k);
    }
  }

  /** A pass of one merge leaves one block. */
  lemma LastPass(keys: seq<Item>, s: seq<nat>, base: nat, k: nat)
    requires k > 0 && InRange(keys, s) && Blocks(keys, s, base, k) && |s| <= 2 * k
    ensures Block(keys, Pass(keys, s, k), base)
  {
    var a := Min(k, |s|);
    if s == [] {
    } else {
      assert s[|s|..] == [] && s[a..|s|] == s[a..];
      assert Pass(keys, s, k) == Merge(keys, s[..a], s[a..]);
      if |s| <= k {
        assert s[..a] == s && s[a..] == [];
      } else {
        FirstBlocks(keys, s, base, k);
        MergeBlocks(keys, s[..k], s[k..], base);
      }
    }
  }

  lemma FirstBlocks(keys: seq<Item>, s: seq<nat>, base: nat, k: nat)
    requires k > 0 && |s| > k && Blocks(keys, s, base, k)
    ensures Block(keys, s[..k], base) && Block(keys, s[k..Min(2 * k, |s|)], base + k)
    ensures |s| > 2 * k ==> Blocks(keys, s[2 * k..], base + 2 * k, k)
  {
    var rest := s[k..];
    if |rest| <= k {
      assert s[k..|s|] == rest;
    } else {
      assert rest[..k] == s[k..2 * k] && rest[k..] == s[2 * k..];
    }
  }

  lemma AppendBlock(keys: seq<Item>, m: seq<nat>, rest: seq<nat>, base: nat, k: nat)
    requires k > 0 && |m| == k && rest != [] && Block(keys, m, base) && Blocks(keys, rest, base + k, k)
    ensures Blocks(keys, m + rest, base, k)
  {
    assert (m + rest)[..k] == m && (m + rest)[k..] == rest;
  }

  lemma {:induction false} SingleBlocks(keys: seq<Item>, s: seq<nat>, base: nat)
    requires base + |s| == |keys| && forall i | 0 <= i < |s| :: s[i] == base + i
    ensures Blocks(keys, s, base, 1)
    decreases |s|
  {
    if s != [] {
      assert s[..1] == [base] && base in s[..1] && Block(keys, s[..1], base);
      SingleBlocks(keys, s[1..], base + 1);
      if |s| == 1 { assert s == s[..1]; }
    }
  }

  lemma FewMerges(n: nat, k: nat)
    requires k > 0
    ensures Merges(n, k) <= 1 <==> n <= 2 * k
  {
    if n > 2 * k { assert Merges(n - 2 * k, k) >= 1; }
  }

  /** The number of passes is logarithmic: one doubling less would not have reached `n`. */
  lemma {:induction false} PassesBound(n: nat, k: nat)
    requires k > 0
    ensures n <= Doubled(k, Passes(n, k))
    ensures Passes(n, k) == 1 || Doubled(k, Passes(n, k) - 1) < n
    decreases n - k
  {
    if n <= 2 * k {
      assert Doubled(k, 1) == Doubled(2 * k, 0);
    } else {
      PassesBound(n, 2 * k);
    }
  }

  /** In a block nothing comes before an element but what stands before it. */
  lemma BlockRank(keys: seq<Item>, s: seq<nat>, base: nat, i: nat, y: nat)
    requires Block(keys, s, base) && i < |s| && base <= y < base + |s| && y != s[i] && !Less(keys, s[i], y)
    ensures y in s[..i]
  {
    assert y in s;
    var j :| 0 <= j < |s| && s[j] == y;
    assert j < i;
    assert s[..i][j] == y;
  }

  lemma {:induction false} TakeSorted(keys: seq<Item>, s: seq<nat>, t: seq<nat>, base: nat, n: nat)
    requires n <= |s| == |t| && Block(keys, s, base) && Block(keys, t, base)
    ensures s[..n] == t[..n]
  {
    if n > 0 {
      TakeSorted(keys, s, t, base, n - 1);
      var x, y := s[n - 1], t[n - 1];
      if x != y {
        LessTotal(keys, x, y);
        if Less(keys, x, y) {
          BlockRank(keys, t, base, n - 1, x);
          NotBefore(keys, s, n - 1);
        } else {
          BlockRank(keys, s, base, n - 1, y);
          NotBefore(keys, t, n - 1);
        }
        assert false;
      }
    }
  }

  lemma NotBefore(keys: seq<Item>, s: seq<nat>, i: nat)
    requires InRange(keys, s) && Sorted(keys, s) && i < |s|
    ensures s[i] !in s[..i]
  {
    OrderReflexive(keys[s[i]]);
    forall j | 0 <= j < i ensures s[j] != s[i] { assert s[j] == s[i] ==> Less(keys, s[j], s[i]); }
  }

  /** There is only one stable order. */
  lemma StableOrderIsUnique(keys: seq<Item>, s: seq<nat>, t: seq<nat>)
    requires |s| == |t| == |keys| && Block(keys, s, 0) && Block(keys, t, 0)
    ensures s == t
  {
    TakeSorted(keys, s, t, 0, |s|);
    assert s[..|s|] == s && t[..|t|] == t;
  }

  lemma Slices<T>(s: seq<T>, a: nat, b: nat, c: nat)
    requires a <= b <= c <= |s|
    ensures s[a..] == s[a..b] + s[b..c] + s[c..]
  {
  }

  /** One round of a pass, seen from position `a`. */
  lemma PassNext(keys: seq<Item>, s: seq<nat>, a: nat, b: nat, c: nat, k: nat)
    requires InRange(keys, s) && k > 0 && a < |s| && b == Min(a + k, |s|) && c == Min(b + k, |s|)
    ensures Pass(keys, s[a..], k) == Merge(keys, s[a..b], s[b..c]) + Pass(keys, s[c..], k)
  {
    Slices(s, a, b, c);
    PassUnfolds(keys, s[a..], k, s[a..b], s[b..c], s[c..]);
  }

  lemma MergesNext(n: nat, a: nat, c: nat, k: nat)
    requires k > 0 && a < n && c == Min(Min(a + k, n) + k, n)
    ensures Merges(n - a, k) == 1 + Merges(n - c, k)
  {
    assert Min(2 * k, n - a) == c - a;
  }

  lemma PassUnfolds(keys: seq<Item>, t: seq<nat>, k: nat, p: seq<nat>, q: seq<nat>, rest: seq<nat>)
    requires InRange(keys, t) && k > 0 && t != [] && t == p + q + rest
    requires |p| == Min(k, |t|) && |q| == Min(k, |t| - |p|)
    ensures InRange(keys, p) && InRange(keys, q) && InRange(keys, rest)
    ensures Pass(keys, t, k) == Merge(keys, p, q) + Pass(keys, rest, k)
  {
    Cut(t, p, q, rest);
    assert Min(2 * k, |t|) == |p| + |q|;
  }

  lemma Cut<T>(t: seq<T>, p: seq<T>, q: seq<T>, rest: seq<T>)
    requires t == p + q + rest
    ensures t[..|p|] == p && t[|p|..|p| + |q|] == q && t[|p| + |q|..] == rest
  {
    assert t == p + (q + rest);
    assert t[|p|..] == q + rest;
    assert t[|p|..|p| + |q|] == t[|p|..][..|q|];
  }
}
