/**
 listsort: bottom-up merge sort by relinking the nodes of a list, linear or circular, single
 or double. The ghost sequence `nodes` is the input list; a list of positions in it says in
 which order its nodes are linked.
 */
module ListSort {
  import opened Wrappers
  import opened NaturalOrder
  import opened MergeSpec

  /** STRING_LIST. */
  class Node {
    var data: string
    var pos: int
    var prev: Node?
    var next: Node?

    constructor (data: string, pos: int)
      ensures this.data == data && this.pos == pos
    {
      this.data, this.pos, prev, next := data, pos, null, null;
    }
  }

  ghost function NodeSet(nodes: seq<Node>): set<Node> {
    set x | x in nodes
  }

  /** The nodes whose back links may change: none in a single list. */
  ghost function Backs(nodes: seq<Node>, double: bool): set<Node> {
    if double then NodeSet(nodes) else {}
  }

  /** The items the nodes hold; sorting does not touch them. */
  ghost predicate KeysOf(nodes: seq<Node>, keys: seq<Item>)
    reads NodeSet(nodes)`data, NodeSet(nodes)`pos
  {
    |keys| == |nodes| && forall i | 0 <= i < |nodes| :: keys[i] == Item(nodes[i].pos, nodes[i].data)
  }

  /** The elements at `i` and `j` differ; a name for it keeps the solver from comparing every two elements. */
  ghost predicate Differ<T>(s: seq<T>, i: nat, j: nat)
    requires i < |s| && j < |s|
  {
    s[i] != s[j]
  }

  ghost predicate Distinct<T>(s: seq<T>) {
    forall i, j | 0 <= i < |s| && 0 <= j < |s| && i != j :: Differ(s, i, j)
  }

  lemma DistinctAppend<T>(s: seq<T>, x: T)
    requires Distinct(s) && x !in s
    ensures Distinct(s + [x])
  {
    forall i: nat, j: nat | i < |s| + 1 && j < |s| + 1 && i != j ensures Differ(s + [x], i, j) {
      if i < |s| && j < |s| { assert Differ(s, i, j); }
    }
  }

  /** `s` is an order of all the nodes. */
  ghost predicate IsOrder(nodes: seq<Node>, s: seq<nat>) {
    |s| == |nodes| && Distinct(nodes) && Distinct(s) && forall i | 0 <= i < |s| :: s[i] < |nodes|
  }

  ghost function NextOf(nodes: seq<Node>, s: seq<nat>, z: nat, circular: bool): Node?
    requires z < |s| && forall i | 0 <= i < |s| :: s[i] < |nodes|
  {
    if z + 1 < |s| then nodes[s[z + 1]] else if circular then nodes[s[0]] else null
  }

  ghost function PrevOf(nodes: seq<Node>, s: seq<nat>, z: nat, circular: bool): Node?
    requires z < |s| && forall i | 0 <= i < |s| :: s[i] < |nodes|
  {
    if z > 0 then nodes[s[z - 1]] else if circular then nodes[s[|s| - 1]] else null
  }

  /** From position `lo` up to `hi` the nodes are linked in the order `s`. */
  ghost predicate NextsOk(nodes: seq<Node>, s: seq<nat>, lo: nat, hi: nat, circular: bool)
    requires IsOrder(nodes, s)
    reads NodeSet(nodes)`next
  {
    hi <= |s| && forall z | lo <= z < hi :: nodes[s[z]].next == NextOf(nodes, s, z, circular)
  }

  /** `list` is the head of the nodes linked in the order `s`. */
  ghost predicate Linked(list: Node?, nodes: seq<Node>, s: seq<nat>, circular: bool)
    reads NodeSet(nodes)`next
  {
    && IsOrder(nodes, s)
    && list == (if s == [] then null else nodes[s[0]])
    && NextsOk(nodes, s, 0, |s|, circular)
  }

  /** The back links mirror the links. */
  ghost predicate BackLinked(nodes: seq<Node>, s: seq<nat>, circular: bool)
    reads NodeSet(nodes)`prev
  {
    && IsOrder(nodes, s)
    && forall z | 0 <= z < |s| :: nodes[s[z]].prev == PrevOf(nodes, s, z, circular)
  }

  /** The merged list so far: its nodes in the order `out`, not yet closed at the end. */
  ghost predicate Merged(list: Node?, tail: Node?, nodes: seq<Node>, out: seq<nat>, double: bool)
    reads NodeSet(nodes)`next, NodeSet(nodes)`prev
  {
    && Distinct(nodes) && Distinct(out) && (forall i | 0 <= i < |out| :: out[i] < |nodes|)
    && (if out == [] then list == tail == null else list == nodes[out[0]] && tail == nodes[out[|out| - 1]])
    && (forall i | 0 <= i < |out| - 1 :: nodes[out[i]].next == nodes[out[i + 1]])
    && (double && out != [] ==> nodes[out[0]].prev == null)
    && (double ==> forall i | 0 <= i < |out| - 1 :: nodes[out[i + 1]].prev == nodes[out[i]])
  }

  /** The end of the merge loop: `e` goes to the end of the merged list. */
  method Append(list0: Node?, tail0: Node?, e: Node, double: bool, ghost nodes: seq<Node>, ghost out: seq<nat>, ghost x: nat)
      returns (list: Node?, tail: Node?)
    requires Merged(list0, tail0, nodes, out, double)
    requires x < |nodes| && e == nodes[x] && x !in out
    modifies NodeSet(nodes)`next, Backs(nodes, double)`prev
    ensures Merged(list, tail, nodes, out + [x], double)
    ensures forall y | 0 <= y < |nodes| && y !in out :: nodes[y].next == old(nodes[y].next)
  {
    list, tail := list0, tail0;
    DistinctAppend(out, x);
    forall i | 0 <= i < |out| ensures out[i] != x && nodes[out[i]] != e { assert out[i] in out; assert Differ(nodes, out[i], x); }
    forall i | 0 <= i < |out| - 1 ensures nodes[out[i]] != tail {
      assert Differ(out, i, |out| - 1);
      assert Differ(nodes, out[i], out[|out| - 1]);
    }
    forall y | 0 <= y < |nodes| && y !in out ensures nodes[y] != tail {
      if out != [] { assert out[|out| - 1] in out; assert Differ(nodes, y, out[|out| - 1]); }
    }
    if tail != null {
      tail.next := e;
    } else {
      list := e;
    }
    if double {
      e.prev := tail;
    }
    tail := e;
  }

  /** One step along the list: past the last node of a circular list is nothing. */
  function Successor(x: Node, circular: bool, oldhead: Node): Node?
    reads x`next
  {
    if circular && x.next == oldhead then null else x.next
  }

  ghost function NodeAt(nodes: seq<Node>, s: seq<nat>, z: nat): (x: Node?)
    requires forall i | 0 <= i < |s| :: s[i] < |nodes|
    ensures x == null <==> z >= |s|
  {
    if z < |s| then nodes[s[z]] else null
  }

  lemma SuccessorIsNext(nodes: seq<Node>, s: seq<nat>, z: nat, circular: bool)
    requires IsOrder(nodes, s) && z < |s| && nodes[s[z]].next == NextOf(nodes, s, z, circular)
    ensures Successor(nodes[s[z]], circular, nodes[s[0]]) == NodeAt(nodes, s, z + 1)
  {
    if z + 1 < |s| {
      assert Differ(s, z + 1, 0);
      assert Differ(nodes, s[z + 1], s[0]);
    }
  }

  /** No position of `out` occurs in `s` between `lo` and `hi`. */
  ghost predicate Unused(out: seq<nat>, s: seq<nat>, lo: nat, hi: nat) {
    hi <= |s| && forall i, z | 0 <= i < |out| && lo <= z < hi :: out[i] != s[z]
  }

  /**
   The state of a merge: the runs still hold the positions pi..pe and qi..qe of the old order,
   everything behind the second run is still linked as before.
   */
  ghost predicate Merging(nodes: seq<Node>, cur: seq<nat>, out: seq<nat>, pi: nat, pe: nat, qi: nat, circular: bool)
    reads NodeSet(nodes)`next
  {
    && IsOrder(nodes, cur) && pi <= pe <= qi <= |cur|
    && NextsOk(nodes, cur, pi, pe, circular) && NextsOk(nodes, cur, qi, |cur|, circular)
    && Unused(out, cur, pi, pe) && Unused(out, cur, qi, |cur|)
  }

  lemma OthersDiffer(nodes: seq<Node>, cur: seq<nat>, k: nat)
    requires IsOrder(nodes, cur) && k < |cur|
    ensures forall z | 0 <= z < |cur| && z != k :: cur[z] != cur[k] && nodes[cur[z]] != nodes[cur[k]]
  {
    forall z | 0 <= z < |cur| && z != k ensures cur[z] != cur[k] && nodes[cur[z]] != nodes[cur[k]] {
      assert Differ(cur, z, k);
      assert Differ(nodes, cur[z], cur[k]);
    }
  }

  /** One round of the merge loop after the choice: position `z` of the old order is appended. */
  method AppendAt(list0: Node?, tail0: Node?, double: bool, circular: bool, e: Node,
                  ghost nodes: seq<Node>, ghost cur: seq<nat>, ghost out: seq<nat>,
                  ghost pi: nat, ghost pe: nat, ghost qi: nat, ghost fromP: bool)
      returns (list: Node?, tail: Node?)
    requires Merged(list0, tail0, nodes, out, double) && Merging(nodes, cur, out, pi, pe, qi, circular)
    requires if fromP then pi < pe && e == nodes[cur[pi]] else qi < |cur| && e == nodes[cur[qi]]
    modifies NodeSet(nodes)`next, Backs(nodes, double)`prev
    ensures Merged(list, tail, nodes, out + [if fromP then cur[pi] else cur[qi]], double)
    ensures Merging(nodes, cur, out + [if fromP then cur[pi] else cur[qi]],
                    if fromP then pi + 1 else pi, pe, if fromP then qi else qi + 1, circular)
  {
    ghost var k: nat := if fromP then pi else qi;
    ghost var x := cur[k];
    OthersDiffer(nodes, cur, k);
    list, tail := Append(list0, tail0, e, double, nodes, out, x);
  }

  /** The choice of the next node: from the run that is left, or the smaller one, the first run winning ties. */
  method FromP(p: Node?, q: Node?, psize: nat, qsize: nat, ghost keys: seq<Item>,
               ghost nodes: seq<Node>, ghost cur: seq<nat>, ghost pi: nat, ghost pe: nat, ghost qi: nat, ghost qe: nat)
      returns (fromP: bool)
    requires IsOrder(nodes, cur) && KeysOf(nodes, keys)
    requires pi <= pe <= qi <= qe <= |cur| && (pi < pe || qi < qe)
    requires AtPositions(p, q, psize, qsize, nodes, cur, pi, pe, qi, qe)
    ensures if pi == pe then !fromP else if qi == qe then fromP
            else fromP <==> Order(keys[cur[pi]], keys[cur[qi]]) <= 0
  {
    if psize == 0 {
      fromP := false;
    } else if qsize == 0 || q == null {
      fromP := true;
    } else {
      var c := Cmp(Item(p.pos, p.data), Item(q.pos, q.data));
      fromP := c <= 0;
    }
  }

  /** The pointers and counters of the merge loop, which stand where the positions pi and qi say. */
  ghost predicate AtPositions(p: Node?, q: Node?, psize: nat, qsize: nat, nodes: seq<Node>, cur: seq<nat>,
                              pi: nat, pe: nat, qi: nat, qe: nat)
    requires IsOrder(nodes, cur)
  {
    && pi <= pe <= qi <= qe == Min(qi + qsize, |cur|)
    && psize == pe - pi && (psize > 0 ==> p == nodes[cur[pi]]) && q == NodeAt(nodes, cur, qi)
  }

  /** What the merge loop has still to append. */
  ghost function Todo(keys: seq<Item>, cur: seq<nat>, pi: nat, pe: nat, qi: nat, qe: nat): seq<nat>
    requires InRange(keys, cur) && pi <= pe <= qi <= qe <= |cur|
  {
    Merge(keys, cur[pi..pe], cur[qi..qe])
  }

  /** The merge loop has come to pi and qi. */
  ghost predicate InMerge(list: Node?, tail: Node?, p: Node?, q: Node?, psize: nat, qsize: nat,
                          circular: bool, double: bool, nodes: seq<Node>, cur: seq<nat>, out: seq<nat>,
                          pi: nat, pe: nat, qi: nat, qe: nat)
    reads NodeSet(nodes)`next, NodeSet(nodes)`prev
  {
    && Merged(list, tail, nodes, out, double) && Merging(nodes, cur, out, pi, pe, qi, circular)
    && AtPositions(p, q, psize, qsize, nodes, cur, pi, pe, qi, qe)
  }

  /** One round of the merge loop. */
  method MergeRound(list0: Node?, tail0: Node?, p0: Node?, q0: Node?, psize0: nat, qsize0: nat,
                    circular: bool, double: bool, oldhead: Node,
                    ghost keys: seq<Item>, ghost nodes: seq<Node>, ghost cur: seq<nat>, ghost out0: seq<nat>,
                    ghost pi0: nat, ghost pe: nat, ghost qi0: nat, ghost qe: nat)
      returns (list: Node?, tail: Node?, p: Node?, q: Node?, psize: nat, qsize: nat,
               ghost out: seq<nat>, ghost pi: nat, ghost qi: nat)
    requires KeysOf(nodes, keys) && (pi0 < pe || qi0 < qe) && |cur| > 0 && |nodes| == |keys|
    requires InMerge(list0, tail0, p0, q0, psize0, qsize0, circular, double, nodes, cur, out0, pi0, pe, qi0, qe)
    requires oldhead == nodes[cur[0]]
    modifies NodeSet(nodes)`next, Backs(nodes, double)`prev
    ensures InMerge(list, tail, p, q, psize, qsize, circular, double, nodes, cur, out, pi, pe, qi, qe)
    ensures out + Todo(keys, cur, pi, pe, qi, qe) == out0 + Todo(keys, cur, pi0, pe, qi0, qe)
    ensures pi + qi == pi0 + qi0 + 1 && pi0 <= pi && qi0 <= qi
  {
    p, q, psize, qsize := p0, q0, psize0, qsize0;
    var fromP := FromP(p, q, psize, qsize, keys, nodes, cur, pi0, pe, qi0, qe);
    MergeStep(keys, cur, pi0, pe, qi0, qe, fromP);
    var e: Node;
    if fromP {
      SuccessorIsNext(nodes, cur, pi0, circular);
      e := p;
      p := Successor(p, circular, oldhead);
      psize := psize - 1;
    } else {
      SuccessorIsNext(nodes, cur, qi0, circular);
      e := q;
      q := Successor(q, circular, oldhead);
      qsize := qsize - 1;
    }
    pi, qi := if fromP then pi0 + 1 else pi0, if fromP then qi0 else qi0 + 1;
    ghost var x := if fromP then cur[pi0] else cur[qi0];
    out := out0 + [x];
    Associative(out0, [x], Todo(keys, cur, pi, pe, qi, qe));
    list, tail := AppendAt(list0, tail0, double, circular, e, nodes, cur, out0, pi0, pe, qi0, fromP);
  }

  /** The merge loop: two neighbouring runs go to the end of the merged list, in merged order. */
  method MergeRuns(list0: Node?, tail0: Node?, p0: Node, q0: Node?, psize0: nat, insize: nat,
                   circular: bool, double: bool, oldhead: Node,
                   ghost keys: seq<Item>, ghost nodes: seq<Node>, ghost cur: seq<nat>, ghost out0: seq<nat>,
                   ghost a: nat, ghost pe: nat, ghost qe: nat)
      returns (list: Node?, tail: Node?, q: Node?, ghost out: seq<nat>)
    requires KeysOf(nodes, keys) && a < pe && insize > 0
    requires InMerge(list0, tail0, p0, q0, psize0, insize, circular, double, nodes, cur, out0, a, pe, pe, qe)
    requires oldhead == nodes[cur[0]]
    modifies NodeSet(nodes)`next, Backs(nodes, double)`prev
    ensures out == out0 + Todo(keys, cur, a, pe, pe, qe)
    ensures Merged(list, tail, nodes, out, double) && Merging(nodes, cur, out, qe, qe, qe, circular)
    ensures q == NodeAt(nodes, cur, qe)
  {
    list, tail, q, out := list0, tail0, q0, out0;
    var p: Node? := p0;
    var psize: nat, qsize: nat := psize0, insize;
    ghost var pi, qi := a, pe;
    while psize > 0 || (qsize > 0 && q != null)
      invariant InMerge(list, tail, p, q, psize, qsize, circular, double, nodes, cur, out, pi, pe, qi, qe)
      invariant out + Todo(keys, cur, pi, pe, qi, qe) == out0 + Todo(keys, cur, a, pe, pe, qe)
      decreases pe - pi + qe - qi
    {
      list, tail, p, q, psize, qsize, out, pi, qi := MergeRound(list, tail, p, q, psize, qsize, circular, double, oldhead,
                                                                keys, nodes, cur, out, pi, pe, qi, qe);
    }
    assert pi == pe && qi == qe;
    TodoDone(keys, cur, pe, qe);
  }

  lemma TodoDone(keys: seq<Item>, cur: seq<nat>, pe: nat, qe: nat)
    requires InRange(keys, cur) && pe <= qe <= |cur|
    ensures forall out: seq<nat> :: out + Todo(keys, cur, pe, pe, qe, qe) == out
  {
    assert cur[pe..pe] == [] && cur[qe..qe] == [];
  }

  /** What the choice does to the merge of the two runs. */
  lemma MergeStep(keys: seq<Item>, cur: seq<nat>, pi: nat, pe: nat, qi: nat, qe: nat, fromP: bool)
    requires InRange(keys, cur) && pi <= pe <= qi <= qe <= |cur| && (pi < pe || qi < qe)
    requires if pi == pe then !fromP else if qi == qe then fromP
             else fromP <==> Order(keys[cur[pi]], keys[cur[qi]]) <= 0
    ensures Todo(keys, cur, pi, pe, qi, qe) ==
            [if fromP then cur[pi] else cur[qi]]
            + Todo(keys, cur, if fromP then pi + 1 else pi, pe, if fromP then qi else qi + 1, qe)
  {
    var p, q := cur[pi..pe], cur[qi..qe];
    if fromP {
      assert p[1..] == cur[pi + 1..pe];
      if q == [] { assert p == [cur[pi]] + p[1..]; assert Merge(keys, p[1..], q) == p[1..]; }
    } else {
      assert q[1..] == cur[qi + 1..qe];
      if p == [] { assert q == [cur[qi]] + q[1..]; }
    }
  }

  /** The loop that steps `insize` places along from `p`. */
  method StepAlong(p: Node, insize: nat, circular: bool, oldhead: Node, ghost nodes: seq<Node>, ghost cur: seq<nat>, ghost a: nat)
      returns (q: Node?, psize: nat)
    requires IsOrder(nodes, cur) && a < |cur| && p == nodes[cur[a]] && oldhead == nodes[cur[0]] && insize > 0
    requires NextsOk(nodes, cur, a, |cur|, circular)
    ensures a + psize == Min(a + insize, |cur|) && q == NodeAt(nodes, cur, a + psize)
  {
    q, psize := p, 0;
    while psize < insize && q != null
      invariant psize <= insize && a + psize <= |cur| && q == NodeAt(nodes, cur, a + psize)
    {
      SuccessorIsNext(nodes, cur, a + psize, circular);
      psize := psize + 1;
      q := Successor(q, circular, oldhead);
    }
  }

  /** What a pass has still to append. */
  ghost function Coming(keys: seq<Item>, cur: seq<nat>, a: nat, insize: nat): seq<nat>
    requires InRange(keys, cur) && a <= |cur| && insize > 0
  {
    Pass(keys, cur[a..], insize)
  }

  /** What is appended already, and the merges it took. */
  ghost predicate ComeTo(keys: seq<Item>, cur: seq<nat>, out: seq<nat>, a: nat, insize: nat, nmerges: nat) {
    && InRange(keys, cur) && a <= |cur| && insize > 0
    && out + Coming(keys, cur, a, insize) == Pass(keys, cur, insize)
    && nmerges + Merges(|cur| - a, insize) == Merges(|cur|, insize)
  }

  lemma ComeToStart(keys: seq<Item>, cur: seq<nat>, insize: nat)
    requires InRange(keys, cur) && insize > 0
    ensures ComeTo(keys, cur, [], 0, insize, 0)
  {
    assert cur[0..] == cur;
  }

  lemma ComeToNext(keys: seq<Item>, cur: seq<nat>, out: seq<nat>, a: nat, next: seq<nat>, c: nat, insize: nat, nmerges: nat)
    requires ComeTo(keys, cur, out, a, insize, nmerges) && c <= |cur|
    requires next + Coming(keys, cur, c, insize) == out + Coming(keys, cur, a, insize)
    requires Merges(|cur| - a, insize) == 1 + Merges(|cur| - c, insize)
    ensures ComeTo(keys, cur, next, c, insize, nmerges + 1)
  {
  }

  lemma ComeToEnd(keys: seq<Item>, cur: seq<nat>, out: seq<nat>, insize: nat, nmerges: nat)
    requires ComeTo(keys, cur, out, |cur|, insize, nmerges)
    ensures out == Pass(keys, cur, insize) && nmerges == Merges(|cur|, insize)
  {
  }

  /** The pass has come to position `a`. */
  ghost predicate InPass(list: Node?, tail: Node?, p: Node?, nodes: seq<Node>, cur: seq<nat>, out: seq<nat>, a: nat,
                         circular: bool, double: bool)
    reads NodeSet(nodes)`next, NodeSet(nodes)`prev
  {
    && Merged(list, tail, nodes, out, double) && Merging(nodes, cur, out, a, a, a, circular)
    && p == NodeAt(nodes, cur, a)
  }

  /** The two runs in front, as the merge loop wants them. */
  lemma RunsInFront(list: Node?, tail: Node?, p: Node?, q: Node?, psize: nat, insize: nat, circular: bool, double: bool,
                    nodes: seq<Node>, cur: seq<nat>, out: seq<nat>, a: nat)
    requires InPass(list, tail, p, nodes, cur, out, a, circular, double) && p != null
    requires a + psize == Min(a + insize, |cur|) && q == NodeAt(nodes, cur, a + psize)
    ensures InMerge(list, tail, p, q, psize, insize, circular, double, nodes, cur, out,
                    a, a + psize, a + psize, Min(a + psize + insize, |cur|))
  {
  }

  lemma ComingSplit(keys: seq<Item>, cur: seq<nat>, a: nat, b: nat, c: nat, insize: nat)
    requires InRange(keys, cur) && insize > 0 && a < |cur| && b == Min(a + insize, |cur|) && c == Min(b + insize, |cur|)
    ensures Coming(keys, cur, a, insize) == Todo(keys, cur, a, b, b, c) + Coming(keys, cur, c, insize)
  {
    PassNext(keys, cur, a, b, c, insize);
  }

  /** What appending the two runs in front leaves of the pass. */
  lemma ComingNext(keys: seq<Item>, cur: seq<nat>, out: seq<nat>, a: nat, b: nat, c: nat, insize: nat)
    requires InRange(keys, cur) && insize > 0 && a < |cur| && b == Min(a + insize, |cur|) && c == Min(b + insize, |cur|)
    ensures out + Todo(keys, cur, a, b, b, c) + Coming(keys, cur, c, insize) == out + Coming(keys, cur, a, insize)
    ensures Merges(|cur| - a, insize) == 1 + Merges(|cur| - c, insize)
  {
    ComingSplit(keys, cur, a, b, c, insize);
    MergesNext(|cur|, a, c, insize);
    Associative(out, Todo(keys, cur, a, b, b, c), Coming(keys, cur, c, insize));
  }

  /** One round of a pass: a run of `insize` nodes and the next one are merged. */
  method PassRound(list0: Node?, tail0: Node?, p0: Node, insize: nat, circular: bool, double: bool, oldhead: Node,
                   ghost keys: seq<Item>, ghost nodes: seq<Node>, ghost cur: seq<nat>, ghost out0: seq<nat>, ghost a: nat)
      returns (list: Node?, tail: Node?, p: Node?, ghost out: seq<nat>, ghost c: nat)
    requires KeysOf(nodes, keys) && InPass(list0, tail0, p0, nodes, cur, out0, a, circular, double)
    requires insize > 0 && oldhead == nodes[cur[0]]
    modifies NodeSet(nodes)`next, Backs(nodes, double)`prev
    ensures InPass(list, tail, p, nodes, cur, out, c, circular, double)
    ensures a < c <= |cur| && Merges(|cur| - a, insize) == 1 + Merges(|cur| - c, insize)
    ensures out + Coming(keys, cur, c, insize) == out0 + Coming(keys, cur, a, insize)
  {
    var q, psize := StepAlong(p0, insize, circular, oldhead, nodes, cur, a);
    ghost var b := a + psize;
    c := Min(b + insize, |cur|);
    ComingNext(keys, cur, out0, a, b, c, insize);
    RunsInFront(list0, tail0, p0, q, psize, insize, circular, double, nodes, cur, out0, a);
    list, tail, p, out := MergeRuns(list0, tail0, p0, q, psize, insize, circular, double, oldhead,
                                    keys, nodes, cur, out0, a, b, c);
  }

  /** The end of a pass: the list is closed behind its last node. */
  method Close(list: Node, tail: Node, circular: bool, double: bool, ghost nodes: seq<Node>, ghost out: seq<nat>)
    requires Merged(list, tail, nodes, out, double) && |out| == |nodes| > 0
    modifies NodeSet(nodes)`next, Backs(nodes, double)`prev
    ensures Linked(list, nodes, out, circular)
    ensures double ==> BackLinked(nodes, out, circular)
  {
    if circular {
      tail.next := list;
      if double { list.prev := tail; }
    } else {
      tail.next := null;
    }
    forall z | 0 <= z < |out|
      ensures double ==> nodes[out[z]].prev == PrevOf(nodes, out, z, circular)
      ensures nodes[out[z]].next == NextOf(nodes, out, z, circular)
    {
      if z > 0 { assert Differ(out, 0, z) && Differ(nodes, out[0], out[z]); }
      if z < |out| - 1 { assert Differ(out, z, |out| - 1) && Differ(nodes, out[z], out[|out| - 1]); }
    }
  }

  /** The rounds of a pass. */
  method MergeAll(list0: Node, insize: nat, circular: bool, double: bool,
                  ghost keys: seq<Item>, ghost nodes: seq<Node>, ghost cur: seq<nat>)
      returns (list: Node?, tail: Node?, nmerges: nat, ghost out: seq<nat>)
    requires insize > 0 && KeysOf(nodes, keys) && Linked(list0, nodes, cur, circular)
    modifies NodeSet(nodes)`next, Backs(nodes, double)`prev
    ensures out == Pass(keys, cur, insize) && nmerges == Merges(|cur|, insize)
    ensures Merged(list, tail, nodes, out, double)
  {
    var p: Node?, oldhead := list0, list0;
    list, tail, nmerges, out := null, null, 0, [];
    ghost var a: nat := 0;
    ComeToStart(keys, cur, insize);
    while p != null
      invariant ComeTo(keys, cur, out, a, insize, nmerges)
      invariant InPass(list, tail, p, nodes, cur, out, a, circular, double)
      decreases |cur| - a
    {
      ghost var out0, a0 := out, a;
      list, tail, p, out, a := PassRound(list, tail, p, insize, circular, double, oldhead, keys, nodes, cur, out0, a0);
      ComeToNext(keys, cur, out0, a0, out, a, insize, nmerges);
      nmerges := nmerges + 1;
    }
    ComeToEnd(keys, cur, out, insize, nmerges);
  }

  /** One pass: every two neighbouring runs of `insize` nodes are merged. */
  method MergePass(list0: Node, insize: nat, circular: bool, double: bool,
                   ghost keys: seq<Item>, ghost nodes: seq<Node>, ghost cur: seq<nat>)
      returns (list: Node?, nmerges: nat, ghost out: seq<nat>)
    requires insize > 0 && KeysOf(nodes, keys) && Linked(list0, nodes, cur, circular)
    modifies NodeSet(nodes)`next, Backs(nodes, double)`prev
    ensures out == Pass(keys, cur, insize) && nmerges == Merges(|cur|, insize)
    ensures Linked(list, nodes, out, circular)
    ensures double ==> BackLinked(nodes, out, circular)
  {
    var tail;
    list, tail, nmerges, out := MergeAll(list0, insize, circular, double, keys, nodes, cur);
    Close(list, tail, circular, double, nodes, out);
  }

  ghost function Identity(n: nat): seq<nat> {
    seq(n, i => i)
  }

  /** Before each pass: runs of `insize` nodes are sorted. */
  ghost predicate InSort(list: Node?, nodes: seq<Node>, keys: seq<Item>, order: seq<nat>, insize: nat, circular: bool)
    reads NodeSet(nodes)`next
  {
    Linked(list, nodes, order, circular) && insize > 0 && InRange(keys, order) && Blocks(keys, order, 0, insize)
  }

  /** After the last pass: the nodes are linked in the stable order. */
  ghost predicate InOrder(list: Node?, nodes: seq<Node>, keys: seq<Item>, order: seq<nat>, circular: bool, double: bool)
    reads NodeSet(nodes)`next, NodeSet(nodes)`prev
  {
    && Linked(list, nodes, order, circular) && InRange(keys, order) && Block(keys, order, 0)
    && (double ==> BackLinked(nodes, order, circular))
  }

  /** One pass, and the test whether it was the last. */
  method SortRound(list0: Node, insize: nat, circular: bool, double: bool,
                   ghost keys: seq<Item>, ghost nodes: seq<Node>, ghost cur: seq<nat>)
      returns (list: Node?, done: bool, ghost order: seq<nat>)
    requires KeysOf(nodes, keys) && InSort(list0, nodes, keys, cur, insize, circular)
    modifies NodeSet(nodes)`next, Backs(nodes, double)`prev
    ensures if done then InOrder(list, nodes, keys, order, circular, double) && Passes(|nodes|, insize) == 1
            else InSort(list, nodes, keys, order, 2 * insize, circular) && list != null && 2 * insize < |nodes|
                 && Passes(|nodes|, insize) == 1 + Passes(|nodes|, 2 * insize)
  {
    PassDoublesBlocks(keys, cur, 0, insize);
    FewMerges(|cur|, insize);
    var nmerges;
    list, nmerges, order := MergePass(list0, insize, circular, double, keys, nodes, cur);
    BlocksInRange(keys, order, 0, 2 * insize);
    done := nmerges <= 1;
  }

  /** The nodes in the order of the new list, `z` from its head. */
  ghost function Nth(nodes: seq<Node>, order: seq<nat>, z: nat): (x: Node)
    requires z < |order| && order[z] < |nodes|
  {
    nodes[order[z]]
  }

  /** The smaller items first, equal ones as they were. */
  lemma InStableOrder(nodes: seq<Node>, keys: seq<Item>, order: seq<nat>)
    requires KeysOf(nodes, keys) && |order| == |nodes| && Block(keys, order, 0)
    ensures forall z | 0 <= z < |order| :: order[z] < |nodes|
    ensures forall y: nat, z: nat {:trigger Nth(nodes, order, y), Nth(nodes, order, z)} | y < z < |order| ::
              ItemOrder(Nth(nodes, order, y), Nth(nodes, order, z)) < 0
              || (ItemOrder(Nth(nodes, order, y), Nth(nodes, order, z)) == 0 && order[y] < order[z])
  {
    forall y: nat, z: nat | y < z < |order|
      ensures ItemOrder(Nth(nodes, order, y), Nth(nodes, order, z)) < 0
              || (ItemOrder(Nth(nodes, order, y), Nth(nodes, order, z)) == 0 && order[y] < order[z])
    {
      assert Less(keys, order[y], order[z]);
    }
  }

  /** How cmp orders two nodes. */
  ghost function ItemOrder(a: Node, b: Node): int
    reads a`pos, a`data, b`pos, b`data
  {
    Order(Item(a.pos, a.data), Item(b.pos, b.data))
  }

  lemma LinkedPlainly(list: Node?, nodes: seq<Node>, order: seq<nat>, circular: bool)
    requires Linked(list, nodes, order, circular)
    ensures |order| == |nodes| && (forall z | 0 <= z < |order| :: order[z] < |nodes|)
    ensures list == if order == [] then null else Nth(nodes, order, 0)
    ensures forall z: nat {:trigger Nth(nodes, order, z)} | z < |order| :: Nth(nodes, order, z).next ==
              if z + 1 < |order| then Nth(nodes, order, z + 1) else if circular then list else null
  {
  }

  lemma BackLinkedPlainly(nodes: seq<Node>, order: seq<nat>, circular: bool)
    requires BackLinked(nodes, order, circular)
    ensures forall z: nat {:trigger Nth(nodes, order, z)} | z < |order| :: Nth(nodes, order, z).prev ==
              if z > 0 then Nth(nodes, order, z - 1) else if circular then Nth(nodes, order, |order| - 1) else null
  {
  }

  /**
   listsort: the same nodes, each linked to the next in their stable order, the back links
   mirroring the links when there are any; and the number of passes, which PassesBound shows to
   be logarithmic.
   */
  method Listsort(list0: Node?, circular: bool, double: bool, ghost keys: seq<Item>, ghost nodes: seq<Node>)
      returns (list: Node?, ghost order: seq<nat>, ghost passes: nat)
    requires KeysOf(nodes, keys) && Linked(list0, nodes, Identity(|nodes|), circular)
    modifies NodeSet(nodes)`next, Backs(nodes, double)`prev
    ensures Linked(list, nodes, order, circular) && Block(keys, order, 0)
    ensures |order| == |nodes| && (forall z | 0 <= z < |order| :: order[z] < |nodes|) && (forall x | 0 <= x < |nodes| :: x in order)
    ensures list == if order == [] then null else Nth(nodes, order, 0)
    ensures forall z: nat {:trigger Nth(nodes, order, z)} | z < |order| :: Nth(nodes, order, z).next ==
              if z + 1 < |order| then Nth(nodes, order, z + 1) else if circular then list else null
    ensures double ==>
              forall z: nat {:trigger Nth(nodes, order, z)} | z < |order| :: Nth(nodes, order, z).prev ==
                if z > 0 then Nth(nodes, order, z - 1) else if circular then Nth(nodes, order, |order| - 1) else null
    ensures forall y: nat, z: nat {:trigger Nth(nodes, order, y), Nth(nodes, order, z)} | y < z < |order| ::
              ItemOrder(Nth(nodes, order, y), Nth(nodes, order, z)) < 0
              || (ItemOrder(Nth(nodes, order, y), Nth(nodes, order, z)) == 0 && order[y] < order[z])
    ensures passes == if nodes == [] then 0 else Passes(|nodes|, 1)
  {
    list, order, passes := SortList(list0, circular, double, keys, nodes);
    InStableOrder(nodes, keys, order);
    LinkedPlainly(list, nodes, order, circular);
    if double { BackLinkedPlainly(nodes, order, circular); }
  }

  /** The special case of the empty list, and the passes over any other. */
  method SortList(list0: Node?, circular: bool, double: bool, ghost keys: seq<Item>, ghost nodes: seq<Node>)
      returns (list: Node?, ghost order: seq<nat>, ghost passes: nat)
    requires KeysOf(nodes, keys) && Linked(list0, nodes, Identity(|nodes|), circular)
    modifies NodeSet(nodes)`next, Backs(nodes, double)`prev
    ensures Linked(list, nodes, order, circular) && Block(keys, order, 0)
    ensures double ==> BackLinked(nodes, order, circular)
    ensures passes == if nodes == [] then 0 else Passes(|nodes|, 1)
  {
    list, order, passes := list0, Identity(|nodes|), 0;
    if list0 == null { return; }
    SingleBlocks(keys, order, 0);
    list, order, passes := SortFrom(list0, circular, double, keys, nodes, order);
  }

  /** The passes over a list that is not empty. */
  method SortFrom(list0: Node, circular: bool, double: bool, ghost keys: seq<Item>, ghost nodes: seq<Node>, ghost cur: seq<nat>)
      returns (list: Node?, ghost order: seq<nat>, ghost passes: nat)
    requires KeysOf(nodes, keys) && InSort(list0, nodes, keys, cur, 1, circular)
    modifies NodeSet(nodes)`next, Backs(nodes, double)`prev
    ensures InOrder(list, nodes, keys, order, circular, double)
    ensures passes == Passes(|nodes|, 1)
  {
    var insize, done := 1, false;
    list, order, passes := list0, cur, 0;
    while !done
      invariant done ==> InOrder(list, nodes, keys, order, circular, double) && passes == Passes(|nodes|, 1)
      invariant !done ==> InSort(list, nodes, keys, order, insize, circular) && list != null
      invariant !done ==> passes + Passes(|nodes|, insize) == Passes(|nodes|, 1)
      decreases !done, |nodes| - insize
    {
      list, done, order := SortRound(list, insize, circular, double, keys, nodes, order);
      passes := passes + 1;
      insize := insize * 2;
    }
  }
}
