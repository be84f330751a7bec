/**
 The compressed tables of a flex scanner: rows of the transition matrix overlaid in one
 array (`nxt`, owned through `chk`), with a default state to inherit missing entries from.
 The numbers are those of the generated scanner; the tables themselves are a parameter.
 */
module FlexTables {
  type Byte = b: int | 0 <= b < 256

  const START_STATES: nat := 36    // two states for each of the 18 start conditions
  const JAM: nat := 326            // the state nothing leaves
  const TEMPLATES: nat := 327      // states from here on only lend their rows
  const JAMBASE: nat := 495        // the base that marks states without a row of their own
  const END_OF_BUFFER: nat := 69   // the action of the end-of-buffer state
  const NUL_CLASS: nat := 1        // the class of a NUL that is not a sentinel

  datatype Tables = Tables(
    accept: seq<nat>, ec: seq<nat>, meta: seq<nat>,
    base: seq<nat>, def: seq<nat>, nxt: seq<nat>, chk: seq<nat>)

  /** Indices stay in range, and defaults lead to earlier states, to templates, or to the jam state. */
  ghost predicate InShape(t: Tables) {
    && |t.accept| == JAM + 1 && |t.ec| == 256 && |t.meta| >= 2
    && |t.base| == |t.def| > JAM && |t.nxt| == |t.chk|
    && (forall b | 0 <= b < 256 :: t.ec[b] < |t.meta|)
    && (forall c | 0 <= c < |t.meta| :: t.meta[c] < |t.meta|)
    && (forall s | 0 <= s < |t.base| :: t.base[s] + |t.meta| <= |t.nxt|)
    && (forall i | 0 <= i < |t.chk| :: t.chk[i] != 0 ==> 1 <= t.nxt[i] <= JAM)
    && (forall s | 1 <= s < JAM :: 1 <= t.def[s] < |t.def| && (t.def[s] < s || t.def[s] >= JAM))
    && (forall s | JAM < s < |t.def| :: t.def[s] == JAM)
    && t.base[JAM] == JAMBASE
    && (forall i | JAMBASE <= i < JAMBASE + |t.meta| :: t.chk[i] == JAM)
  }

  predicate IsState(t: Tables, s: nat) { 1 <= s < |t.base| }

  /** How far a state is from the jam state along its defaults. */
  function Distance(s: nat): nat {
    if s == JAM then 0 else if s > JAM then 1 else s + 1
  }

  /** The class under which a state reached by default is searched: templates use equivalence classes of classes. */
  function DefaultClass(t: Tables, s: nat, c: nat): nat
    requires InShape(t) && c < |t.meta|
  {
    if s >= TEMPLATES then t.meta[c] else c
  }

  predicate Owns(t: Tables, s: nat, c: nat)
    requires InShape(t) && IsState(t, s) && c < |t.meta|
  {
    t.chk[t.base[s] + c] == s
  }

  /** The transition matrix the compressed tables stand for. */
  function Delta(t: Tables, s: nat, c: nat): (r: nat)
    requires InShape(t) && IsState(t, s) && c < |t.meta|
    ensures 1 <= r <= JAM
    decreases Distance(s)
  {
    if Owns(t, s, c) then t.nxt[t.base[s] + c]
    else Delta(t, t.def[s], DefaultClass(t, t.def[s], c))
  }

  /** The entry of a state is its own, or that of its default, searched under the class of the class from state 327 on. */
  lemma DeltaByDefault(t: Tables, s: nat, c: nat)
    requires InShape(t) && IsState(t, s) && c < |t.meta|
    ensures t.chk[t.base[s] + c] == s ==> Delta(t, s, c) == t.nxt[t.base[s] + c]
    ensures t.chk[t.base[s] + c] != s ==>
              IsState(t, t.def[s]) && Delta(t, s, c) == Delta(t, t.def[s], if t.def[s] >= 327 then t.meta[c] else c)
  {
  }

  /** The lookup loop, which occurs four times in the scanner: it ends, and finds the entry of the matrix. */
  method Transition(t: Tables, state: nat, class_: nat) returns (next: nat)
    requires InShape(t) && IsState(t, state) && class_ < |t.meta|
    ensures next == Delta(t, state, class_)
  {
    var s: nat, c: nat := state, class_;
    while t.chk[t.base[s] + c] != s
      invariant IsState(t, s) && c < |t.meta|
      invariant Delta(t, s, c) == Delta(t, state, class_)
      decreases Distance(s)
    {
      s := t.def[s];
      if s >= TEMPLATES { c := t.meta[c]; }
    }
    next := t.nxt[t.base[s] + c];
  }

  // ----- the same matrix without recursion: follow the defaults until a row owns the entry

  /** The state and class searched after `k` defaults. */
  ghost predicate Reaches(t: Tables, s: nat, c: nat, k: nat, s': nat, c': nat)
    requires InShape(t) && IsState(t, s) && c < |t.meta|
    decreases k
  {
    if k == 0 then s' == s && c' == c
    else !Owns(t, s, c) && Reaches(t, t.def[s], DefaultClass(t, t.def[s], c), k - 1, s', c')
  }

  /** Exactly one entry answers a lookup: the first one owned along the defaults. */
  lemma {:induction false} DeltaIsFirstOwned(t: Tables, s: nat, c: nat) returns (k: nat, s': nat, c': nat)
    requires InShape(t) && IsState(t, s) && c < |t.meta|
    ensures IsState(t, s') && c' < |t.meta| && Reaches(t, s, c, k, s', c')
    ensures Owns(t, s', c') && Delta(t, s, c) == t.nxt[t.base[s'] + c']
    decreases Distance(s)
  {
    if Owns(t, s, c) {
      k, s', c' := 0, s, c;
    } else {
      k, s', c' := DeltaIsFirstOwned(t, t.def[s], DefaultClass(t, t.def[s], c));
      k := k + 1;
    }
  }

  // ----- what makes tables those of a scanner

  predicate IsStart(s: nat) {
    1 <= s <= START_STATES
  }

  /** The class of an input character, as opposed to a sentinel. */
  function Class(t: Tables, b: Byte): (c: nat)
    requires InShape(t)
    ensures c < |t.meta|
  {
    if b == 0 then NUL_CLASS else t.ec[b]
  }

  /** A sentinel is read as class 0, which no character has, and leads to the end-of-buffer state. */
  predicate SentinelEnds(t: Tables, s: nat)
    requires InShape(t) && 1 <= s <= JAM
  {
    t.accept[s] != END_OF_BUFFER ==> t.accept[Delta(t, s, 0)] == END_OF_BUFFER
  }

  /** Characters do not lead to the end-of-buffer state. */
  predicate CharacterGoesOn(t: Tables, s: nat, c: nat)
    requires InShape(t) && 1 <= s <= JAM && c < |t.meta|
  {
    c >= 1 ==> t.accept[Delta(t, s, c)] != END_OF_BUFFER
  }

  /** Nothing follows the end-of-buffer state, not even the second sentinel. */
  predicate EndIsLast(t: Tables, s: nat, c: nat)
    requires InShape(t) && 1 <= s <= JAM && c < |t.meta|
  {
    t.accept[s] == END_OF_BUFFER ==> Delta(t, s, c) == JAM
  }

  /** The default rule: any single character is a token. */
  predicate DefaultRule(t: Tables, s: nat, c: nat)
    requires InShape(t) && IsState(t, s) && c < |t.meta|
  {
    IsStart(s) && c >= 1 ==> t.accept[Delta(t, s, c)] != 0
  }

  ghost predicate WellFormed(t: Tables) {
    && InShape(t)
    && t.accept[JAM] == 0 && (forall s: nat | IsStart(s) :: t.accept[s] == 0)
    && (forall i | JAMBASE < i < JAMBASE + |t.meta| :: t.nxt[i] == JAM)
    && (forall s | 1 <= s < JAM :: t.base[s] == JAMBASE ==> t.def[s] == JAM)
    && t.ec[0] == 0 && (forall b | 1 <= b < 256 :: t.ec[b] >= 1)
    && (forall s | 1 <= s <= JAM :: SentinelEnds(t, s))
    && (forall s, c | 1 <= s <= JAM && 0 <= c < |t.meta| :: CharacterGoesOn(t, s, c))
    && (forall s, c | 1 <= s <= JAM && 0 <= c < |t.meta| :: EndIsLast(t, s, c))
    && (forall s, c | 1 <= s <= JAM && 0 <= c < |t.meta| :: DefaultRule(t, s, c))
  }

  /** A scanner whose only tokens are single characters. */
  ghost function Smallest(): (t: Tables)
    ensures WellFormed(t)
  {
    var t := SmallestTables();
    SmallestMoves();
    t
  }

  function SmallestTables(): Tables {
    Tables(
      seq(JAM + 1, s => if s == 37 then END_OF_BUFFER else if s == 38 then 1 else 0),
      seq(256, b => if b == 0 then 0 else 1),
      [0, 1],
      seq(JAM + 1, s => if s <= START_STATES then 2 * s else if s == 37 then JAMBASE - 2 else JAMBASE),
      seq(JAM + 1, _ => JAM),
      seq(JAMBASE + 2, i => if i == JAMBASE then 37 else if i < 2 * START_STATES + 2 then 38 else JAM),
      seq(JAMBASE + 2, i => if i >= JAMBASE then JAM else if i == JAMBASE - 2 then 37
                            else if i % 2 == 1 && i < 2 * START_STATES + 2 then i / 2 else 0))
  }

  lemma SmallestMoves()
    ensures InShape(SmallestTables())
    ensures forall s: nat, c: nat | 1 <= s <= JAM && c < 2 ::
              Delta(SmallestTables(), s, c) ==
              if s == 37 then JAM else if c == 0 then 37 else if s <= START_STATES then 38 else JAM
  {
    var t := SmallestTables();
    forall s: nat, c: nat | 1 <= s <= JAM && c < 2
      ensures Delta(t, s, c) == if s == 37 then JAM else if c == 0 then 37 else if s <= START_STATES then 38 else JAM
    {
      assert Owns(t, JAM, c);
    }
  }

  type Automaton = t: Tables | WellFormed(t) ghost witness Smallest()

  lemma JamStays(t: Automaton, c: nat)
    requires 1 <= c < |t.meta|
    ensures Delta(t, JAM, c) == JAM
  {
    assert Owns(t, JAM, c);
  }

  /** The exit test of the match loop: no character leads on from such a state. */
  lemma JamBaseIsDead(t: Automaton, s: nat, c: nat)
    requires 1 <= s <= JAM && t.base[s] == JAMBASE && 1 <= c < |t.meta|
    ensures Delta(t, s, c) == JAM
  {
    JamStays(t, c);
  }
}
