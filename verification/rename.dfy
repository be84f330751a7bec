/**
 The net rename table: substitutions recorded one by one, some of them redirected, and applied
 in order to the net names of all pins; against the equivalence of names that was asked for.
 */
module Rename {
  import opened Wrappers

  datatype Pair = Pair(src: string, dest: string)

  // ----- what the table does to one name

  function Renamed(name: string, pair: Pair): string {
    if name == pair.src then pair.dest else name
  }

  function RenamedAll(name: string, pairs: seq<Pair>): string {
    if pairs == [] then name else Renamed(RenamedAll(name, pairs[..|pairs| - 1]), pairs[|pairs| - 1])
  }

  predicate IsSource(pairs: seq<Pair>, name: string) {
    exists i | 0 <= i < |pairs| :: pairs[i].src == name
  }

  /** The test of s_rename_search: one of the two names is a source already. */
  predicate Flagged(pairs: seq<Pair>, src: string, dest: string) {
    IsSource(pairs, src) || IsSource(pairs, dest)
  }

  /** `src` to be renamed as `dest` is, once for every pair with that source. */
  function Redirected(pairs: seq<Pair>, src: string, dest: string): seq<Pair> {
    if pairs == [] then []
    else
      var last := pairs[|pairs| - 1];
      Redirected(pairs[..|pairs| - 1], src, dest) + if last.src == dest then [Pair(src, last.dest)] else []
  }

  function Added(pairs: seq<Pair>, request: Pair): seq<Pair> {
    pairs + if Flagged(pairs, request.src, request.dest) then Redirected(pairs, request.src, request.dest) else [request]
  }

  /** The table after a series of requests. */
  function Table(requests: seq<Pair>): seq<Pair> {
    if requests == [] then [] else Added(Table(requests[..|requests| - 1]), requests[|requests| - 1])
  }

  // ----- the names that were asked to be one

  predicate Linked(pairs: seq<Pair>, x: string, y: string) {
    Pair(x, y) in pairs || Pair(y, x) in pairs
  }

  /** `path` steps from name to name along the pairs. */
  predicate IsPath(pairs: seq<Pair>, path: seq<string>) {
    path != [] && forall i | 0 <= i < |path| - 1 :: Linked(pairs, path[i], path[i + 1])
  }

  predicate Joins(pairs: seq<Pair>, x: string, y: string, path: seq<string>) {
    IsPath(pairs, path) && path[0] == x && path[|path| - 1] == y
  }

  ghost predicate Connected(pairs: seq<Pair>, x: string, y: string) {
    exists path :: Joins(pairs, x, y, path)
  }

  lemma ConnectedSelf(pairs: seq<Pair>, x: string)
    ensures Connected(pairs, x, x)
  {
    assert Joins(pairs, x, x, [x]);
  }

  lemma ConnectedLink(pairs: seq<Pair>, x: string, y: string)
    requires Linked(pairs, x, y)
    ensures Connected(pairs, x, y)
  {
    assert Joins(pairs, x, y, [x, y]);
  }

  lemma ConnectedTrans(pairs: seq<Pair>, x: string, y: string, z: string)
    requires Connected(pairs, x, y) && Connected(pairs, y, z)
    ensures Connected(pairs, x, z)
  {
    var a :| Joins(pairs, x, y, a);
    var b :| Joins(pairs, y, z, b);
    var path := a + b[1..];
    forall i | 0 <= i < |path| - 1 ensures Linked(pairs, path[i], path[i + 1]) {
      if i >= |a| - 1 { assert Linked(pairs, b[i - |a| + 1], b[i - |a| + 2]); }
    }
    assert Joins(pairs, x, z, path);
  }

  lemma ConnectedSym(pairs: seq<Pair>, x: string, y: string)
    requires Connected(pairs, x, y)
    ensures Connected(pairs, y, x)
  {
    var a :| Joins(pairs, x, y, a);
    var n := |a|;
    var path := seq(n, i requires 0 <= i < n => a[n - 1 - i]);
    forall i | 0 <= i < n - 1 ensures Linked(pairs, path[i], path[i + 1]) {
      assert Linked(pairs, a[n - 2 - i], a[n - 2 - i + 1]);
    }
    assert Joins(pairs, y, x, path);
  }

  /** Pairs that are connected themselves connect no more than the others do. */
  lemma {:induction false} ConnectedThrough(pairs: seq<Pair>, more: seq<Pair>, x: string, y: string, path: seq<string>)
    requires Joins(pairs, x, y, path)
    requires forall i | 0 <= i < |pairs| :: Connected(more, pairs[i].src, pairs[i].dest)
    ensures Connected(more, x, y)
    decreases |path|
  {
    if |path| == 1 {
      ConnectedSelf(more, x);
    } else {
      assert Linked(pairs, path[0], path[1]);
      LinkedThrough(pairs, more, x, path[1]);
      forall i | 0 <= i < |path| - 2 ensures Linked(pairs, path[1..][i], path[1..][i + 1]) {
        assert Linked(pairs, path[i + 1], path[i + 2]);
      }
      ConnectedThrough(pairs, more, path[1], y, path[1..]);
      ConnectedTrans(more, x, path[1], y);
    }
  }

  lemma LinkedThrough(pairs: seq<Pair>, more: seq<Pair>, x: string, y: string)
    requires Linked(pairs, x, y)
    requires forall i | 0 <= i < |pairs| :: Connected(more, pairs[i].src, pairs[i].dest)
    ensures Connected(more, x, y)
  {
    if Pair(x, y) in pairs {
      var i :| 0 <= i < |pairs| && pairs[i] == Pair(x, y);
      assert Connected(more, pairs[i].src, pairs[i].dest);
    } else {
      var i :| 0 <= i < |pairs| && pairs[i] == Pair(y, x);
      assert Connected(more, pairs[i].src, pairs[i].dest);
      ConnectedSym(more, y, x);
    }
  }

  // ----- a name and what becomes of it are connected, so strangers are never joined

  lemma {:induction false} ConnectedToRenamed(pairs: seq<Pair>, n: nat, x: string)
    requires n <= |pairs|
    ensures Connected(pairs, x, RenamedAll(x, pairs[..n]))
  {
    if n == 0 {
      ConnectedSelf(pairs, x);
    } else {
      ConnectedToRenamed(pairs, n - 1, x);
      assert pairs[..n][..n - 1] == pairs[..n - 1];
      var name := RenamedAll(x, pairs[..n - 1]);
      if name == pairs[n - 1].src {
        assert pairs[n - 1] == Pair(name, pairs[n - 1].dest);
        ConnectedLink(pairs, name, pairs[n - 1].dest);
        ConnectedTrans(pairs, x, name, pairs[n - 1].dest);
      }
    }
  }

  lemma {:induction false} TableFollowsRequests(requests: seq<Pair>, pair: Pair)
    requires pair in Table(requests)
    ensures Connected(requests, pair.src, pair.dest)
  {
    var front, last := requests[..|requests| - 1], requests[|requests| - 1];
    var before := Table(front);
    assert requests == front + [last];
    if pair in before {
      TableFollowsRequests(front, pair);
      Widened(front, requests, pair.src, pair.dest);
    } else if pair == last {
      ConnectedLink(requests, last.src, last.dest);
    } else {
      RedirectedExactly(before, last.src, last.dest, pair);
      TableFollowsRequests(front, Pair(last.dest, pair.dest));
      Widened(front, requests, last.dest, pair.dest);
      ConnectedLink(requests, last.src, last.dest);
      ConnectedTrans(requests, last.src, last.dest, pair.dest);
    }
  }

  lemma Widened(front: seq<Pair>, pairs: seq<Pair>, x: string, y: string)
    requires Connected(front, x, y) && forall pair | pair in front :: pair in pairs
    ensures Connected(pairs, x, y)
  {
    var path :| Joins(front, x, y, path);
    forall i | 0 <= i < |path| - 1 ensures Linked(pairs, path[i], path[i + 1]) {
      assert Linked(front, path[i], path[i + 1]);
    }
    assert Joins(pairs, x, y, path);
  }

  /** Two names that come to be one were asked to be, whatever the requests and however they were redirected. */
  lemma NeverJoinsStrangers(requests: seq<Pair>, x: string, y: string)
    requires RenamedAll(x, Table(requests)) == RenamedAll(y, Table(requests))
    ensures Connected(requests, x, y)
  {
    var table := Table(requests);
    assert table[..|table|] == table;
    ConnectedToRenamed(table, |table|, x);
    ConnectedToRenamed(table, |table|, y);
    ConnectedSym(table, y, RenamedAll(y, table));
    ConnectedTrans(table, x, RenamedAll(x, table), y);
    var path :| Joins(table, x, y, path);
    forall i | 0 <= i < |table| ensures Connected(requests, table[i].src, table[i].dest) {
      TableFollowsRequests(requests, table[i]);
    }
    ConnectedThrough(table, requests, x, y, path);
  }

  // ----- requests whose names are no sources are recorded, and rename

  /** No name of request `j` is the source of request `i`. */
  predicate Apart(requests: seq<Pair>, i: nat, j: nat)
    requires i < |requests| && j < |requests|
  {
    requests[j].src != requests[i].src && requests[j].dest != requests[i].src
  }

  ghost predicate AllApart(requests: seq<Pair>) {
    forall i: nat, j: nat | i < j < |requests| :: Apart(requests, i, j)
  }

  /** So it is of the requests before one, and none of them has a name of that one as its source. */
  lemma FreshBefore(requests: seq<Pair>, k: nat)
    requires AllApart(requests) && k < |requests|
    ensures AllApart(requests[..k]) && !IsSource(requests[..k], requests[k].src) && !IsSource(requests[..k], requests[k].dest)
  {
    var front := requests[..k];
    forall i: nat, j: nat | i < j < k ensures Apart(front, i, j) { assert Apart(requests, i, j); }
    forall i: nat | i < k ensures front[i].src != requests[k].src && front[i].src != requests[k].dest {
      assert Apart(requests, i, k);
    }
  }

  lemma {:induction false} ApartIsTable(requests: seq<Pair>)
    requires AllApart(requests)
    ensures Table(requests) == requests
  {
    if requests != [] {
      var n := |requests| - 1;
      FreshBefore(requests, n);
      ApartIsTable(requests[..n]);
      assert requests == requests[..n] + [requests[n]];
    }
  }

  /** Requests whose names are not sources already make the table as they are. */
  lemma TableIsRequests(requests: seq<Pair>)
    requires forall i, j | 0 <= i < j < |requests| :: requests[j].src != requests[i].src && requests[j].dest != requests[i].src
    ensures Table(requests) == requests && AllApart(requests)
  {
    forall i: nat, j: nat | i < j < |requests| ensures Apart(requests, i, j) { }
    ApartIsTable(requests);
  }

  /** A last pair renames its source to its destination, and nothing else. */
  lemma LastPairRenames(pairs: seq<Pair>, src: string, dest: string, name: string)
    ensures RenamedAll(name, pairs + [Pair(src, dest)]) == if RenamedAll(name, pairs) == src then dest else RenamedAll(name, pairs)
    ensures RenamedAll(name, []) == name
  {
    assert (pairs + [Pair(src, dest)])[..|pairs|] == pairs;
  }

  /** The redirected pairs are just those from `src` to where pairs of the table take `dest`. */
  lemma {:induction false} RedirectedExactly(pairs: seq<Pair>, src: string, dest: string, pair: Pair)
    ensures pair in Redirected(pairs, src, dest) <==> pair.src == src && Pair(dest, pair.dest) in pairs
  {
    if pairs != [] {
      var front, last := pairs[..|pairs| - 1], pairs[|pairs| - 1];
      RedirectedExactly(front, src, dest, pair);
      assert pairs == front + [last];
    }
  }

  /** A request is recorded unless one of its names is a source; then it is redirected. */
  lemma AddedPlainly(pairs: seq<Pair>, src: string, dest: string)
    ensures var after := Added(pairs, Pair(src, dest));
            if exists i | 0 <= i < |pairs| :: pairs[i].src == src || pairs[i].src == dest then
              && pairs <= after
              && forall pair: Pair :: pair in after[|pairs|..] <==> pair.src == src && Pair(dest, pair.dest) in pairs
            else after == pairs + [Pair(src, dest)]
  {
    var after := Added(pairs, Pair(src, dest));
    if Flagged(pairs, src, dest) {
      assert after[|pairs|..] == Redirected(pairs, src, dest);
      forall pair: Pair ensures pair in after[|pairs|..] <==> pair.src == src && Pair(dest, pair.dest) in pairs {
        RedirectedExactly(pairs, src, dest, pair);
      }
    }
  }

  // ----- what was recorded as asked is kept by everything that follows

  /** The request is recorded as it stands. */
  predicate Recorded(requests: seq<Pair>, k: nat)
    requires k < |requests|
  {
    !Flagged(Table(requests[..k]), requests[k].src, requests[k].dest)
  }

  lemma {:induction false} NoSourceNoChange(pairs: seq<Pair>, name: string)
    requires !IsSource(pairs, name)
    ensures RenamedAll(name, pairs) == name
  {
    if pairs != [] {
      var front := pairs[..|pairs| - 1];
      forall i | 0 <= i < |front| ensures front[i].src != name { assert pairs[i].src != name; }
      NoSourceNoChange(front, name);
    }
  }

  lemma {:induction false} RenamedInTwo(name: string, a: seq<Pair>, b: seq<Pair>)
    ensures RenamedAll(name, a + b) == RenamedAll(RenamedAll(name, a), b)
  {
    if b == [] {
      assert a + b == a;
    } else {
      RenamedInTwo(name, a, b[..|b| - 1]);
      assert (a + b)[..|a + b| - 1] == a + b[..|b| - 1];
    }
  }

  lemma {:induction false} TableGrows(requests: seq<Pair>, k: nat) returns (rest: seq<Pair>)
    requires k <= |requests|
    ensures Table(requests) == Table(requests[..k]) + rest
  {
    if k == |requests| {
      assert requests[..k] == requests;
      rest := [];
    } else {
      var front := requests[..|requests| - 1];
      var before := TableGrows(front, k);
      assert front[..k] == requests[..k];
      rest := before + Table(requests)[|Table(front)|..];
    }
  }

  /** Names that are one after some requests stay one after all later ones, recorded or redirected. */
  lemma OneForGood(requests: seq<Pair>, k: nat, x: string, y: string)
    requires k <= |requests| && RenamedAll(x, Table(requests[..k])) == RenamedAll(y, Table(requests[..k]))
    ensures RenamedAll(x, Table(requests)) == RenamedAll(y, Table(requests))
  {
    var rest := TableGrows(requests, k);
    RenamedInTwo(x, Table(requests[..k]), rest);
    RenamedInTwo(y, Table(requests[..k]), rest);
  }

  /** A request that joins its names when it is made joins them for good. */
  lemma JoinedForGood(requests: seq<Pair>, k: nat)
    requires k < |requests| && WillJoin(Table(requests[..k]), requests[k].src, requests[k].dest)
    ensures RenamedAll(requests[k].src, Table(requests)) == RenamedAll(requests[k].dest, Table(requests))
  {
    assert requests[..k + 1][..k] == requests[..k];
    AddJoinsExactly(Table(requests[..k]), requests[k].src, requests[k].dest);
    OneForGood(requests, k + 1, requests[k].src, requests[k].dest);
  }

  /** So does every request that is recorded as it stands. */
  lemma RecordedForGood(requests: seq<Pair>, k: nat)
    requires k < |requests| && Recorded(requests, k)
    ensures RenamedAll(requests[k].src, Table(requests)) == RenamedAll(requests[k].dest, Table(requests))
  {
    JoinedForGood(requests, k);
  }

  /** The request joins its names when it is made, recorded or redirected. */
  predicate Effective(requests: seq<Pair>, k: nat)
    requires k < |requests|
  {
    WillJoin(Table(requests[..k]), requests[k].src, requests[k].dest)
  }

  /** Renaming joins just what was asked for, when every request joined its names at the time. */
  lemma JoinsExactly(requests: seq<Pair>, x: string, y: string)
    requires forall k | 0 <= k < |requests| :: Effective(requests, k)
    ensures RenamedAll(x, Table(requests)) == RenamedAll(y, Table(requests)) <==> Connected(requests, x, y)
  {
    if Connected(requests, x, y) {
      var path :| Joins(requests, x, y, path);
      JoinedAlong(requests, x, y, path);
    } else if RenamedAll(x, Table(requests)) == RenamedAll(y, Table(requests)) {
      NeverJoinsStrangers(requests, x, y);
    }
  }

  /** So it does when no request has a name that was the source of an earlier one. */
  lemma FreshJoinsExactly(requests: seq<Pair>, x: string, y: string)
    requires forall i, j | 0 <= i < j < |requests| :: requests[j].src != requests[i].src && requests[j].dest != requests[i].src
    ensures RenamedAll(x, requests) == RenamedAll(y, requests) <==> Connected(requests, x, y)
    ensures Table(requests) == requests
  {
    TableIsRequests(requests);
    forall k | 0 <= k < |requests| ensures Effective(requests, k) {
      FreshBefore(requests, k);
      ApartIsTable(requests[..k]);
    }
    JoinsExactly(requests, x, y);
  }

  /** So it does when every request was recorded as it stands. */
  lemma RecordedJoinsExactly(requests: seq<Pair>, x: string, y: string)
    requires forall k | 0 <= k < |requests| :: Recorded(requests, k)
    ensures RenamedAll(x, Table(requests)) == RenamedAll(y, Table(requests)) <==> Connected(requests, x, y)
  {
    forall k | 0 <= k < |requests| ensures Effective(requests, k) { assert Recorded(requests, k); }
    JoinsExactly(requests, x, y);
  }

  lemma {:induction false} JoinedAlong(requests: seq<Pair>, x: string, y: string, path: seq<string>)
    requires forall k | 0 <= k < |requests| :: Effective(requests, k)
    requires Joins(requests, x, y, path)
    ensures RenamedAll(x, Table(requests)) == RenamedAll(y, Table(requests))
    decreases |path|
  {
    if |path| > 1 {
      var z, rest := path[1], path[1..];
      assert Linked(requests, x, z);
      var k :| 0 <= k < |requests| && (requests[k] == Pair(x, z) || requests[k] == Pair(z, x));
      assert Effective(requests, k);
      JoinedForGood(requests, k);
      forall i | 0 <= i < |rest| - 1 ensures Linked(requests, rest[i], rest[i + 1]) {
        assert Linked(requests, path[i + 1], path[i + 2]);
      }
      JoinedAlong(requests, z, y, rest);
    }
  }

  // ----- requests that are redirected

  /** The name the redirected pairs give to `src`: the first of theirs that differs from it. */
  function Landing(pairs: seq<Pair>, src: string, dest: string): string {
    if pairs == [] then src
    else
      var name, last := Landing(pairs[..|pairs| - 1], src, dest), pairs[|pairs| - 1];
      if name == src && last.src == dest then last.dest else name
  }

  lemma {:induction false} RedirectedLands(pairs: seq<Pair>, src: string, dest: string, name: string)
    ensures RenamedAll(name, Redirected(pairs, src, dest)) == if name == src then Landing(pairs, src, dest) else name
  {
    if pairs != [] {
      var front, last := pairs[..|pairs| - 1], pairs[|pairs| - 1];
      RedirectedLands(front, src, dest, name);
      var redirected := Redirected(front, src, dest);
      if last.src == dest {
        assert (redirected + [Pair(src, last.dest)])[..|redirected|] == redirected;
      } else {
        assert redirected + [] == redirected;
      }
    }
  }

  /**
   Whether a request will join its names, seen from the table before it: it is recorded, or
   the names are one already, or one of them still stands for `src` and the other for the name
   that `src` will be redirected to.
   */
  predicate WillJoin(pairs: seq<Pair>, src: string, dest: string) {
    var a, b, target := RenamedAll(src, pairs), RenamedAll(dest, pairs), Landing(pairs, src, dest);
    !Flagged(pairs, src, dest) || a == b || (a == src && b == target) || (b == src && a == target)
  }

  lemma AddJoinsExactly(pairs: seq<Pair>, src: string, dest: string)
    ensures RenamedAll(src, Added(pairs, Pair(src, dest))) == RenamedAll(dest, Added(pairs, Pair(src, dest)))
            <==> WillJoin(pairs, src, dest)
  {
    forall name | name == src || name == dest
      ensures RenamedAll(name, Added(pairs, Pair(src, dest))) ==
              if Flagged(pairs, src, dest)
              then RenamedAll(RenamedAll(name, pairs), Redirected(pairs, src, dest))
              else RenamedAll(RenamedAll(name, pairs), [Pair(src, dest)])
    {
      RenamedInTwo(name, pairs, Redirected(pairs, src, dest));
      RenamedInTwo(name, pairs, [Pair(src, dest)]);
    }
    if Flagged(pairs, src, dest) {
      RedirectedLands(pairs, src, dest, RenamedAll(src, pairs));
      RedirectedLands(pairs, src, dest, RenamedAll(dest, pairs));
    } else {
      NoSourceNoChange(pairs, src);
      NoSourceNoChange(pairs, dest);
      assert [Pair(src, dest)][..0] == [];
    }
  }

  /** What one pair more does to a table. */
  lemma PairStep(pairs: seq<Pair>, last: Pair, name: string, other: string)
    ensures RenamedAll(name, pairs + [last]) == Renamed(RenamedAll(name, pairs), last)
    ensures IsSource(pairs + [last], name) <==> IsSource(pairs, name) || last.src == name
    ensures Redirected(pairs + [last], name, other) ==
            Redirected(pairs, name, other) + if last.src == other then [Pair(name, last.dest)] else []
  {
    var more := pairs + [last];
    assert more[..|pairs|] == pairs;
    if IsSource(pairs, name) {
      var i :| 0 <= i < |pairs| && pairs[i].src == name;
      assert more[i].src == name;
    }
    assert more[|pairs|] == last;
  }

  /** A chain of two pairs: what it knows of its names, and of one more. */
  lemma ChainOfTwo(a: string, b: string, c: string, x: string)
    requires a != b && b != c && c != a && x != a && x != b && x != c
    ensures var chain := [Pair(a, b)] + [Pair(b, c)];
            IsSource(chain, a) && !IsSource(chain, x) && RenamedAll(a, chain) == c && Redirected(chain, x, a) == [Pair(x, b)]
  {
    PairStep([], Pair(a, b), a, a);
    PairStep([], Pair(a, b), x, a);
    assert [] + [Pair(a, b)] == [Pair(a, b)];
    PairStep([Pair(a, b)], Pair(b, c), a, a);
    PairStep([Pair(a, b)], Pair(b, c), x, a);
  }

  /** A redirected request that fails: a is renamed to b and b to c; then x, to be joined with a, ends as b. */
  lemma RedirectedTooEarly(a: string, b: string, c: string, x: string)
    requires a != b && b != c && c != a && x != a && x != b && x != c
    ensures var after := Added([Pair(a, b)] + [Pair(b, c)], Pair(x, a));
            RenamedAll(x, after) == b && RenamedAll(a, after) == c
  {
    var chain := [Pair(a, b)] + [Pair(b, c)];
    ChainOfTwo(a, b, c, x);
    NoSourceNoChange(chain, x);
    PairStep(chain, Pair(x, b), x, x);
    PairStep(chain, Pair(x, b), a, a);
  }

  // ----- the table and the netlists

  /** CPINLIST. */
  class Pin {
    var netName: Option<string>
    var next: Pin?
  }

  /** NETLIST. */
  class Net {
    var cpins: Pin?
    var next: Net?
  }

  ghost function PinAt(pins: seq<Pin>, i: nat): Pin? {
    if i < |pins| then pins[i] else null
  }

  ghost function NetAt(nets: seq<Net>, i: nat): Net? {
    if i < |nets| then nets[i] else null
  }

  ghost predicate PinChain(head: Pin?, pins: seq<Pin>)
    reads PinSet(pins)`next
  {
    head == PinAt(pins, 0) && forall i: nat | i < |pins| :: PinNext(pins, i)
  }

  ghost predicate PinNext(pins: seq<Pin>, i: nat)
    requires i < |pins|
    reads PinSet(pins)`next
  {
    pins[i].next == PinAt(pins, i + 1)
  }

  lemma PinSetStep(pins: seq<Pin>, j: nat)
    requires j < |pins|
    ensures PinSet(pins[..j + 1]) == PinSet(pins[..j]) + {pins[j]}
  {
    assert pins[..j + 1] == pins[..j] + [pins[j]];
  }

  ghost function PinSet(pins: seq<Pin>): set<Pin> {
    set p | p in pins
  }

  ghost function AllPins(pins: seq<seq<Pin>>): set<Pin> {
    set chain, p | chain in pins && p in chain :: p
  }

  lemma AllPinsStep(pins: seq<seq<Pin>>, i: nat)
    requires i < |pins|
    ensures AllPins(pins[..i + 1]) == AllPins(pins[..i]) + PinSet(pins[i])
    ensures PinSet(pins[i]) <= AllPins(pins)
  {
    var before, after := pins[..i], pins[..i + 1];
    assert after == before + [pins[i]];
    forall p | p in AllPins(after) ensures p in AllPins(before) + PinSet(pins[i]) {
      var chain :| chain in after && p in chain;
      assert chain in before || chain == pins[i];
    }
    forall p | p in AllPins(before) ensures p in AllPins(after) {
      var chain :| chain in before && p in chain;
      assert chain in after;
    }
    assert pins[i] in after && pins[i] in pins;
  }

  /** The lists behind `head`: its nets, and the pins of each. */
  ghost predicate Chains(head: Net?, nets: seq<Net>, pins: seq<seq<Pin>>)
    reads (set n | n in nets)`next, (set n | n in nets)`cpins, AllPins(pins)`next
  {
    && |nets| == |pins| && head == NetAt(nets, 0)
    && (forall i | 0 <= i < |nets| :: nets[i].next == NetAt(nets, i + 1))
    && (forall i | 0 <= i < |nets| :: PinsOf(nets[i], pins, i))
  }

  ghost predicate PinsOf(net: Net, pins: seq<seq<Pin>>, i: nat)
    requires i < |pins|
    reads net`cpins, AllPins(pins)`next
  {
    AllPinsStep(pins, i);
    PinChain(net.cpins, pins[i])
  }

  function RenamedName(name: Option<string>, pairs: seq<Pair>): Option<string> {
    if name.None? then None else Some(RenamedAll(name.value, pairs))
  }

  class RenameTable {
    /** The pairs of the current set. */
    var pairs: seq<Pair>

    constructor ()
      ensures pairs == []
    {
      pairs := [];
    }

    /** s_rename_next_set: the sets before it are not used again. */
    method NextSet()
      modifies this
      ensures pairs == []
    {
      pairs := [];
    }

    /** s_rename_search. */
    method Search(src: string, dest: string) returns (found: bool)
      ensures found <==> exists i | 0 <= i < |pairs| :: pairs[i].src == src || pairs[i].src == dest
    {
      for i := 0 to |pairs|
        invariant forall k | 0 <= k < i :: pairs[k].src != src && pairs[k].src != dest
      {
        if src == pairs[i].src { return true; }
        if dest == pairs[i].src { return true; }
      }
      return false;
    }

    /** s_rename_add. */
    method Add(src: Option<string>, dest: Option<string>)
      modifies this
      ensures pairs == if src.None? || dest.None? then old(pairs) else Added(old(pairs), Pair(src.value, dest.value))
      ensures src.Some? && dest.Some? ==>
                if exists i | 0 <= i < |old(pairs)| :: old(pairs)[i].src == src.value || old(pairs)[i].src == dest.value then
                  && old(pairs) <= pairs
                  && forall pair: Pair :: pair in pairs[|old(pairs)|..] <==> pair.src == src.value && Pair(dest.value, pair.dest) in old(pairs)
                else pairs == old(pairs) + [Pair(src.value, dest.value)]
    {
      if src.Some? && dest.Some? { AddedPlainly(pairs, src.value, dest.value); }
      if src.None? || dest.None? { return; }
      var flag := Search(src.value, dest.value);
      if flag {
        var count := |pairs|;
        for i := 0 to count
          invariant pairs == old(pairs) + Redirected(old(pairs)[..i], src.value, dest.value)
        {
          assert old(pairs)[..i + 1][..i] == old(pairs)[..i];
          if dest.value == pairs[i].src {
            pairs := pairs + [Pair(src.value, pairs[i].dest)];
          }
        }
        assert old(pairs)[..count] == old(pairs);
      } else {
        pairs := pairs + [Pair(src.value, dest.value)];
      }
    }

    /** s_rename_all: the pairs in order, each over all pins; only net names change. */
    method RenameAll(head: Net?, ghost nets: seq<Net>, ghost pins: seq<seq<Pin>>)
      requires Chains(head, nets, pins)
      modifies AllPins(pins)`netName
      ensures forall p | p in AllPins(pins) :: p.netName == RenamedName(old(p.netName), pairs)
    {
      for i := 0 to |pairs|
        invariant forall p | p in AllPins(pins) :: p.netName == RenamedName(old(p.netName), pairs[..i])
      {
        RenameLowlevel(head, pairs[i], nets, pins);
        assert pairs[..i + 1][..i] == pairs[..i];
      }
      assert pairs[..|pairs|] == pairs;
    }
  }

  function RenamedOnce(name: Option<string>, pair: Pair): Option<string> {
    if name == Some(pair.src) then Some(pair.dest) else name
  }

  /** The pins in `done` are renamed, the others not yet. */
  twostate predicate RenamedSoFar(all: set<Pin>, new done: set<Pin>, pair: Pair)
    reads all`netName
  {
    forall p | p in all :: p.netName == if p in done then RenamedOnce(old(p.netName), pair) else old(p.netName)
  }

  /** The inner loop of s_rename_all_lowlevel: the pins of one net. */
  method RenamePins(head: Pin?, pair: Pair, ghost pins: seq<Pin>)
    requires PinChain(head, pins)
    modifies PinSet(pins)`netName
    ensures RenamedSoFar(PinSet(pins), PinSet(pins), pair)
  {
    var pin := head;
    ghost var j := 0;
    while pin != null
      invariant 0 <= j <= |pins| && pin == PinAt(pins, j)
      invariant RenamedSoFar(PinSet(pins), PinSet(pins[..j]), pair)
      decreases |pins| - j
    {
      PinSetStep(pins, j);
      assert PinNext(pins, j);
      if pin.netName.Some? {
        if pin.netName.value == pair.src {
          pin.netName := Some(pair.dest);
        }
      }
      pin := pin.next;
      j := j + 1;
    }
    assert pins[..j] == pins;
  }

  /** s_rename_all_lowlevel. */
  method RenameLowlevel(head: Net?, pair: Pair, ghost nets: seq<Net>, ghost pins: seq<seq<Pin>>)
    requires Chains(head, nets, pins)
    modifies AllPins(pins)`netName
    ensures forall p | p in AllPins(pins) :: p.netName == if old(p.netName) == Some(pair.src) then Some(pair.dest) else old(p.netName)
  {
    var net := head;
    ghost var i := 0;
    while net != null
      invariant 0 <= i <= |nets| && net == NetAt(nets, i)
      invariant RenamedSoFar(AllPins(pins), AllPins(pins[..i]), pair)
      decreases |nets| - i
    {
      assert PinsOf(nets[i], pins, i);
      AllPinsStep(pins, i);
      RenamePins(net.cpins, pair, pins[i]);
      net := net.next;
      i := i + 1;
    }
    assert pins[..i] == pins;
  }

  /**
   A new set, requests, and the renaming of all pins: pins end with one name only if requests
   connect their names, and, when every request joined its names at the time, whenever they do.
   */
  method RenameNets(table: RenameTable, requests: seq<Pair>, head: Net?, ghost nets: seq<Net>, ghost pins: seq<seq<Pin>>)
    requires Chains(head, nets, pins)
    modifies table, AllPins(pins)`netName
    ensures table.pairs == Table(requests)
    ensures (forall i, j | 0 <= i < j < |requests| :: requests[j].src != requests[i].src && requests[j].dest != requests[i].src) ==>
              && table.pairs == requests
              && forall p, q | p in AllPins(pins) && q in AllPins(pins) && old(p.netName.Some? && q.netName.Some?) ::
                   p.netName == q.netName <==> Connected(requests, old(p.netName.value), old(q.netName.value))
    ensures forall p | p in AllPins(pins) :: p.netName == RenamedName(old(p.netName), Table(requests))
    ensures forall p, q | p in AllPins(pins) && q in AllPins(pins) && old(p.netName.Some? && q.netName.Some?) ::
              p.netName == q.netName ==> Connected(requests, old(p.netName.value), old(q.netName.value))
    ensures (forall k | 0 <= k < |requests| :: Effective(requests, k)) ==>
              forall p, q | p in AllPins(pins) && q in AllPins(pins) && old(p.netName.Some? && q.netName.Some?) ::
                Connected(requests, old(p.netName.value), old(q.netName.value)) ==> p.netName == q.netName
  {
    table.NextSet();
    for i := 0 to |requests|
      invariant table.pairs == Table(requests[..i])
      modifies table
    {
      assert requests[..i + 1][..i] == requests[..i];
      table.Add(Some(requests[i].src), Some(requests[i].dest));
    }
    assert requests[..|requests|] == requests;
    table.RenameAll(head, nets, pins);
    ConnectedNames(requests);
    ConnectedFreshNames(requests);
  }

  lemma ConnectedFreshNames(requests: seq<Pair>)
    ensures (forall i, j | 0 <= i < j < |requests| :: requests[j].src != requests[i].src && requests[j].dest != requests[i].src) ==>
              && Table(requests) == requests
              && forall x: string, y: string {:trigger Connected(requests, x, y)} ::
                   RenamedAll(x, requests) == RenamedAll(y, requests) <==> Connected(requests, x, y)
  {
    if forall i, j | 0 <= i < j < |requests| :: requests[j].src != requests[i].src && requests[j].dest != requests[i].src {
      forall x: string, y: string ensures RenamedAll(x, requests) == RenamedAll(y, requests) <==> Connected(requests, x, y) {
        FreshJoinsExactly(requests, x, y);
      }
      TableIsRequests(requests);
    }
  }

  lemma ConnectedNames(requests: seq<Pair>)
    ensures forall x: string, y: string {:trigger Connected(requests, x, y)} ::
              RenamedAll(x, Table(requests)) == RenamedAll(y, Table(requests)) ==> Connected(requests, x, y)
    ensures (forall k | 0 <= k < |requests| :: Effective(requests, k)) ==>
              forall x: string, y: string {:trigger Connected(requests, x, y)} ::
                Connected(requests, x, y) ==> RenamedAll(x, Table(requests)) == RenamedAll(y, Table(requests))
  {
    forall x: string, y: string
      ensures RenamedAll(x, Table(requests)) == RenamedAll(y, Table(requests)) ==> Connected(requests, x, y)
      ensures (forall k | 0 <= k < |requests| :: Effective(requests, k)) && Connected(requests, x, y) ==>
                RenamedAll(x, Table(requests)) == RenamedAll(y, Table(requests))
    {
      if RenamedAll(x, Table(requests)) == RenamedAll(y, Table(requests)) { NeverJoinsStrangers(requests, x, y); }
      if forall k | 0 <= k < |requests| :: Effective(requests, k) { JoinsExactly(requests, x, y); }
    }
  }
}
