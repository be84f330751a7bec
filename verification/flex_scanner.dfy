/**
 The scanner proper: a buffer that is refilled in the middle of a token, with two NULs
 behind its last character, scanned by an automaton that must tell those sentinels from
 NULs of the input.
 */
module FlexScanner {
  import opened Wrappers
  import opened FlexTables
  import opened FlexSpec

  const YY_READ_BUF_SIZE: nat := 8192

  datatype Status = New | Normal | EofPending

  datatype EobAct = ContinueScan | EndOfFile | LastMatch

  /** Where the end-of-buffer action leaves the scanner. */
  datatype Resume = Terminate | GoMatch(cp: nat, state: nat) | GoFindAction(cp: nat, state: nat)

  /** Among the first `n` prefixes, the last accepting one is kept in yy_last_accepting_state/cpos. */
  ghost predicate Recorded(t: Automaton, s: nat, input: seq<Byte>, bp: nat, n: nat, lastState: nat, lastPos: nat)
    requires 1 <= s <= JAM && n <= |input| + 1
  {
    n >= 2 ==>
      && bp + 1 <= lastPos < bp + n
      && Action(t, s, input, lastPos - bp) != 0 && lastState == Run(t, s, input[..lastPos - bp])
      && forall m | lastPos - bp < m < n :: Action(t, s, input, m) == 0
  }

  /** The automaton has read the characters up to `cp` and none of them was a sentinel. */
  ghost predicate InText(t: Automaton, s: nat, input: seq<Byte>, bp: nat, cp: nat, state: nat, lastState: nat, lastPos: nat)
  {
    && IsStart(s) && bp <= cp <= bp + |input|
    && state == Run(t, s, input[..cp - bp])
    && Recorded(t, s, input, bp, cp - bp, lastState, lastPos)
  }

  /** The automaton has read the text up to `cp` and cannot read on; what to do next is known to yy_find_action. */
  ghost predicate Findable(t: Automaton, s: nat, input: seq<Byte>, bp: nat, cp: nat, state: nat, lastState: nat, lastPos: nat)
  {
    && IsStart(s) && bp < cp <= bp + |input|
    && state == Run(t, s, input[..cp - bp]) && Stuck(t, s, input, cp - bp)
    && (t.accept[state] == 0 ==> Recorded(t, s, input, bp, cp - bp, lastState, lastPos))
  }

  ghost predicate Before(a: (int, int, int), b: (int, int, int)) {
    a.0 < b.0 || (a.0 == b.0 && (a.1 < b.1 || (a.1 == b.1 && a.2 < b.2)))
  }

  class Scanner {
    const t: Automaton

    // the current buffer (yy_buffer_state)
    var chBuf: array<Byte>
    var bufSize: nat
    var bufNChars: nat
    var atBol: bool
    var status: Status

    // the scanner's globals
    var nChars: nat
    var cBufP: nat
    var textPtr: nat
    var hold: Byte
    var start: nat
    var lastState: nat
    var lastPos: nat

    // what is left to read of the input file
    var unread: seq<Byte>

    /** The buffer between two characters, with no text cut out of it, and its two sentinels. */
    ghost predicate Filled()
      reads this`chBuf, this`bufSize, this`nChars, this`bufNChars, this`status, this`unread, chBuf
    {
      && 1 <= bufSize && chBuf.Length == bufSize + 2
      && nChars <= bufSize && chBuf[nChars] == 0 && chBuf[nChars + 1] == 0
      && (status == EofPending ==> unread == [])
      && (status == New ==> bufNChars == nChars)
    }

    /** The buffer between two tokens: the character at `cBufP` is kept in `hold`. */
    ghost predicate Valid()
      reads this, chBuf
    {
      && 1 <= bufSize && chBuf.Length == bufSize + 2
      && cBufP <= nChars <= bufSize && chBuf[nChars + 1] == 0
      && (if cBufP == nChars then hold == 0 else chBuf[nChars] == 0)
      && (status == EofPending ==> unread == [])
      && (status == New ==> bufNChars == nChars)
    }

    /** The input that is still to be scanned. */
    ghost function Rest(): seq<Byte>
      requires Valid()
      reads this, chBuf
    {
      (if cBufP == nChars then [] else [hold] + chBuf[cBufP + 1..nChars]) + unread
    }

    /** The input from position `from` of the buffer on. */
    ghost function Stream(from: nat): seq<Byte>
      requires from <= nChars <= chBuf.Length
      reads this`chBuf, this`nChars, this`unread, chBuf
    {
      chBuf[from..nChars] + unread
    }

    /** yy_create_buffer and yy_init_buffer on a file not yet read. */
    constructor (tables: Automaton, size: nat, input: seq<Byte>)
      requires size >= 1
      ensures Valid() && fresh(chBuf) && t == tables
      ensures Rest() == input && atBol
    {
      t := tables;
      bufSize, bufNChars, atBol, status := size, 0, true, New;
      nChars, cBufP, textPtr, hold := 0, 0, 0, 0;
      start, lastState, lastPos := 1, 0, 0;
      unread := input;
      chBuf := new Byte[size + 2](_ => 0);
    }

    // ----- matching

    /** One step of remembering, as the match loop, yy_get_previous_state and yy_try_NUL_trans make it. */
    method Remember(state: nat, cp: nat, ghost s: nat, ghost input: seq<Byte>, ghost bp: nat)
      requires state < |t.accept|
      modifies this`lastState, this`lastPos
      ensures if t.accept[state] != 0 then lastState == state && lastPos == cp
              else lastState == old(lastState) && lastPos == old(lastPos)
      ensures IsStart(s) && bp <= cp <= bp + |input| && state == Run(t, s, input[..cp - bp])
              && Recorded(t, s, input, bp, cp - bp, old(lastState), old(lastPos))
              ==> Recorded(t, s, input, bp, cp - bp + 1, lastState, lastPos)
    {
      if t.accept[state] != 0 {
        lastState := state;
        lastPos := cp;
      }
      if IsStart(s) && bp + 1 == cp <= bp + |input| { FirstCharacter(t, s, input); }
      if IsStart(s) && bp == cp { assert input[..0] == []; }
    }

    /** The automaton has just read the NUL at `p`. */
    ghost predicate PastNul(p: nat, cp: nat, state: nat)
    {
      cp == p + 1 && 1 <= state <= JAM && t.accept[state] == END_OF_BUFFER
    }

    /** It has also read the character behind that NUL, and jammed. */
    ghost predicate Jammed(p: nat, state: nat)
      reads this`lastState, this`lastPos
    {
      state == JAM && lastPos == p + 1 && 1 <= lastState <= JAM && t.accept[lastState] == END_OF_BUFFER
    }

    /** One round of the match loop. */
    method MatchStep(cp: nat, state0: nat, ghost s: nat, ghost input: seq<Byte>, ghost bp: nat, ghost eob0: Option<nat>)
        returns (state: nat, ghost eob: Option<nat>)
      requires Filled() && nChars <= bp + |input|
      requires forall p | bp <= p < nChars :: chBuf[p] == input[p - bp]
      requires eob0 == None ==> cp <= nChars && InText(t, s, input, bp, cp, state0, lastState, lastPos)
      requires eob0.Some? ==> eob0.value <= nChars && PastNul(eob0.value, cp, state0)
      modifies this`lastState, this`lastPos
      ensures eob == if eob0 == None && chBuf[cp] == 0 then Some(cp) else eob0
      ensures eob == None ==> cp < nChars && InText(t, s, input, bp, cp + 1, state, lastState, lastPos)
      ensures eob.Some? ==> if eob0 == None then PastNul(cp, cp + 1, state) else Jammed(eob.value, state)
    {
      var class_ := t.ec[chBuf[cp]];
      StepLeads(cp, state0, s, input, bp, eob0);
      eob := if eob0 == None && chBuf[cp] == 0 then Some(cp) else eob0;
      Remember(state0, cp, s, input, bp);
      state := Transition(t, state0, class_);
    }

    /** Where the entry looked up by the match loop leads. */
    lemma StepLeads(cp: nat, state: nat, s: nat, input: seq<Byte>, bp: nat, eob: Option<nat>)
      requires Filled() && nChars <= bp + |input|
      requires forall p | bp <= p < nChars :: chBuf[p] == input[p - bp]
      requires eob == None ==> cp <= nChars && InText(t, s, input, bp, cp, state, lastState, lastPos)
      requires eob.Some? ==> eob.value <= nChars && PastNul(eob.value, cp, state)
      ensures 1 <= state <= JAM && cp <= nChars + 1 && t.ec[chBuf[cp]] < |t.meta|
      ensures var next := Delta(t, state, t.ec[chBuf[cp]]);
              if eob.Some? then next == JAM
              else t.accept[state] != END_OF_BUFFER &&
                   if chBuf[cp] == 0 then t.accept[next] == END_OF_BUFFER
                   else cp < nChars && next == Run(t, s, input[..cp + 1 - bp])
    {
      if eob == None {
        NeverEndOfBuffer(t, s, input, cp - bp);
        if chBuf[cp] != 0 {
          RunNext(t, s, input, cp - bp);
        } else {
          assert SentinelEnds(t, state);
        }
      } else {
        assert EndIsLast(t, state, t.ec[chBuf[cp]]);
      }
    }

    /** The match loop is at `cp`: still in the text, or past the NUL at `eob`, where it goes on at most once. */
    ghost predicate Matching(cp0: nat, cp: nat, state: nat, eob: Option<nat>, more: bool, s: nat, input: seq<Byte>, bp: nat)
      requires nChars < chBuf.Length
      reads this`chBuf, this`nChars, this`lastState, this`lastPos, chBuf
    {
      match eob
      case None =>
        && cp0 <= cp <= nChars && InText(t, s, input, bp, cp, state, lastState, lastPos)
        && (more || (cp0 < cp && t.base[state] == JAMBASE))
      case Some(p) =>
        && cp0 <= p <= nChars && chBuf[p] == 0
        && (PastNul(p, cp, state) || (!more && Jammed(p, state)))
    }

    /** One turn of the match loop, with its test. */
    method MatchRound(cp0: nat, state0: nat, ghost from: nat, ghost s: nat, ghost input: seq<Byte>, ghost bp: nat, ghost eob0: Option<nat>)
        returns (cp: nat, state: nat, more: bool, ghost eob: Option<nat>)
      requires Filled() && Matching(from, cp0, state0, eob0, true, s, input, bp)
      requires nChars <= bp + |input| && forall p | bp <= p < nChars :: chBuf[p] == input[p - bp]
      modifies this`lastState, this`lastPos
      ensures cp == cp0 + 1 <= nChars + 2 && Matching(from, cp, state, eob, more, s, input, bp)
    {
      state, eob := MatchStep(cp0, state0, s, input, bp, eob0);
      cp := cp0 + 1;
      more := t.base[state] != JAMBASE;
    }

    /** The match loop (yy_match), up to a state no character leads on from; `eob` is where it met a NUL, if it did. */
    method Match(cp0: nat, state0: nat, ghost s: nat, ghost input: seq<Byte>, ghost bp: nat)
        returns (cp: nat, state: nat, ghost eob: Option<nat>)
      requires Filled() && bp <= cp0 <= nChars && input == Stream(bp) && InText(t, s, input, bp, cp0, state0, lastState, lastPos)
      modifies this`lastState, this`lastPos
      ensures eob == None ==> cp0 < cp <= nChars && InText(t, s, input, bp, cp, state, lastState, lastPos) && t.base[state] == JAMBASE
      ensures eob.Some? ==> cp0 <= eob.value <= nChars && chBuf[eob.value] == 0
                            && (PastNul(eob.value, cp, state) || Jammed(eob.value, state))
    {
      cp, state, eob := cp0, state0, None;
      var more := true;
      while more
        invariant Filled() && cp <= nChars + 2 && Matching(cp0, cp, state, eob, more, s, input, bp)
        decreases nChars + 2 - cp
      {
        cp, state, more, eob := MatchRound(cp, state, cp0, s, input, bp, eob);
      }
    }

    lemma MatchIsFindable(s: nat, input: seq<Byte>, bp: nat, cp: nat, state: nat)
      requires InText(t, s, input, bp, cp, state, lastState, lastPos) && bp < cp && t.base[state] == JAMBASE
      ensures Findable(t, s, input, bp, cp, state, lastState, lastPos)
    {
      if cp - bp < |input| { JamBaseIsDead(t, state, Class(t, input[cp - bp])); }
      StuckHere(t, s, input, cp - bp);
    }

    /** yy_find_action: the action of the state, or after backing up that of the last accepting one. */
    method FindAction(cp0: nat, state: nat, ghost s: nat, ghost input: seq<Byte>, ghost bp: nat)
        returns (act: nat, cp: nat)
      requires 1 <= state <= JAM && (t.accept[state] == 0 ==> lastState < |t.accept|)
      ensures Findable(t, s, input, bp, cp0, state, lastState, lastPos) ==>
                act != END_OF_BUFFER && bp < cp <= cp0 && Longest(t, s, input, Token(act, input[..cp - bp]))
      ensures cp == (if t.accept[state] != 0 then cp0 else lastPos)
      ensures act == t.accept[if t.accept[state] != 0 then state else lastState]
    {
      act, cp := t.accept[state], cp0;
      if act == 0 {
        cp := lastPos;
        act := t.accept[lastState];
      }
      if Findable(t, s, input, bp, cp0, state, lastState, lastPos) {
        FirstCharacter(t, s, input);
        StuckIsLongest(t, s, input, cp0 - bp, cp - bp);
        NeverEndOfBuffer(t, s, input, cp - bp);
      }
    }

    lemma LastStateIsState(s: nat, input: seq<Byte>, bp: nat, cp: nat, state: nat)
      requires Findable(t, s, input, bp, cp, state, lastState, lastPos) && t.accept[state] == 0
      ensures 1 <= lastState <= JAM
    {
      FirstCharacter(t, s, input);
    }

    /** From yy_match through yy_find_action: a token, or the action of the end-of-buffer state just behind a NUL. */
    method MatchAndFind(cp0: nat, state0: nat, ghost s: nat, ghost input: seq<Byte>, ghost bp: nat)
        returns (act: nat, cp: nat)
      requires Filled() && bp <= cp0 <= nChars && input == Stream(bp) && InText(t, s, input, bp, cp0, state0, lastState, lastPos)
      modifies this`lastState, this`lastPos
      ensures act != END_OF_BUFFER ==> bp < cp <= nChars && Longest(t, s, input, Token(act, input[..cp - bp]))
      ensures act == END_OF_BUFFER ==> cp0 < cp <= nChars + 1 && chBuf[cp - 1] == 0
    {
      var state: nat;
      ghost var eob;
      cp, state, eob := Match(cp0, state0, s, input, bp);
      if eob == None {
        MatchIsFindable(s, input, bp, cp, state);
        if t.accept[state] == 0 { LastStateIsState(s, input, bp, cp, state); }
      }
      act, cp := FindAction(cp, state, s, input, bp);
    }

    // ----- replaying

    /** One character of the input, its class given: remember, then move on. */
    method Advance(state: nat, cp: nat, class_: nat, ghost s: nat, ghost input: seq<Byte>, ghost bp: nat)
        returns (next: nat)
      requires InText(t, s, input, bp, cp, state, lastState, lastPos)
      requires cp - bp < |input| && class_ == Class(t, input[cp - bp])
      modifies this`lastState, this`lastPos
      ensures InText(t, s, input, bp, cp + 1, next, lastState, lastPos) && next == Delta(t, state, class_)
      ensures t.accept[state] == 0 ==> lastState == old(lastState) && lastPos == old(lastPos)
    {
      RunNext(t, s, input, cp - bp);
      Remember(state, cp, s, input, bp);
      next := Transition(t, state, class_);
    }

    /** One character of the text, a NUL being one of the input here. */
    method Replay(state: nat, cp: nat, ghost s: nat, ghost input: seq<Byte>) returns (next: nat)
      requires textPtr <= cp < nChars <= chBuf.Length && input == Stream(textPtr)
      requires InText(t, s, input, textPtr, cp, state, lastState, lastPos)
      modifies this`lastState, this`lastPos
      ensures InText(t, s, input, textPtr, cp + 1, next, lastState, lastPos)
    {
      var class_ := if chBuf[cp] != 0 then t.ec[chBuf[cp]] else NUL_CLASS;
      assert input[cp - textPtr] == chBuf[cp];
      next := Advance(state, cp, class_, s, input, textPtr);
    }

    /** yy_get_previous_state: the state just before `cBufP`, recomputed from the start of the text. */
    method GetPreviousState(ghost s: nat, ghost input: seq<Byte>) returns (state: nat)
      requires Filled() && textPtr <= cBufP <= nChars && input == Stream(textPtr)
      requires s == StartState(start, atBol) && IsStart(s)
      modifies this`lastState, this`lastPos
      ensures InText(t, s, input, textPtr, cBufP, state, lastState, lastPos)
    {
      state := start;
      state := state + if atBol then 1 else 0;
      assert input[..0] == [];
      var cp := textPtr;
      while cp < cBufP
        invariant textPtr <= cp <= cBufP && InText(t, s, input, textPtr, cp, state, lastState, lastPos)
      {
        state := Replay(state, cp, s, input);
        cp := cp + 1;
      }
    }

    /** yy_try_NUL_trans: the state after a NUL of the input, or 0 if it jams. */
    method TryNulTrans(state: nat, ghost s: nat, ghost input: seq<Byte>, ghost bp: nat) returns (next: nat)
      requires InText(t, s, input, bp, cBufP, state, lastState, lastPos)
      requires cBufP - bp < |input| && input[cBufP - bp] == 0
      modifies this`lastState, this`lastPos
      ensures next != 0 ==> InText(t, s, input, bp, cBufP + 1, next, lastState, lastPos)
      ensures next == 0 ==> Findable(t, s, input, bp, cBufP, state, lastState, lastPos)
    {
      next := Advance(state, cBufP, NUL_CLASS, s, input, bp);
      if next == JAM {
        next := 0;
        NulJams(s, input, bp, state);
      }
    }

    lemma NulJams(s: nat, input: seq<Byte>, bp: nat, state: nat)
      requires IsStart(s) && bp <= cBufP < bp + |input| && state == Run(t, s, input[..cBufP - bp])
      requires Delta(t, state, Class(t, input[cBufP - bp])) == JAM
      requires t.accept[state] == 0 ==> Recorded(t, s, input, bp, cBufP - bp, lastState, lastPos)
      ensures Findable(t, s, input, bp, cBufP, state, lastState, lastPos)
    {
      StuckHere(t, s, input, cBufP - bp);
      JamIsLate(s, input, bp, state);
    }

    /** The first character of a token never jams. */
    lemma JamIsLate(s: nat, input: seq<Byte>, bp: nat, state: nat)
      requires IsStart(s) && bp <= cBufP < bp + |input| && state == Run(t, s, input[..cBufP - bp])
      requires Delta(t, state, Class(t, input[cBufP - bp])) == JAM
      ensures bp < cBufP
    {
      RunNext(t, s, input, cBufP - bp);
      if bp == cBufP { FirstCharacter(t, s, input); }
    }

    // ----- refilling

    /** yyrestart, that is yy_flush_buffer and yy_load_buffer_state: an empty buffer at the beginning of a line. */
    method Restart()
      requires chBuf.Length >= 2
      modifies this`nChars, this`bufNChars, this`atBol, this`status, this`textPtr, this`cBufP, this`hold, chBuf
      ensures nChars == bufNChars == textPtr == cBufP == 0 && hold == 0 && atBol && status == New
      ensures chBuf[0] == chBuf[1] == 0
    {
      bufNChars := 0;
      chBuf[0] := 0;
      chBuf[1] := 0;
      atBol := true;
      status := New;
      nChars := bufNChars;
      textPtr, cBufP := 0, 0;
      hold := chBuf[cBufP];
    }

    /** YY_INPUT: any chunk of the unread input that is not empty and fits, or nothing at its end. */
    method Input(at: nat, max: nat) returns (n: nat)
      requires 0 < max && at + max <= chBuf.Length
      modifies this`unread, chBuf
      ensures n <= max && n <= |old(unread)| && (n == 0 <==> old(unread) == [])
      ensures chBuf[at..at + n] == old(unread)[..n] && unread == old(unread)[n..]
      ensures forall i | 0 <= i < chBuf.Length && (i < at || at + n <= i) :: chBuf[i] == old(chBuf[i])
    {
      if unread == [] { return 0; }
      n :| 1 <= n <= max && n <= |unread|;
      forall i | 0 <= i < n { chBuf[at + i] := unread[i]; }
      unread := unread[n..];
    }

    /** The text moves to the front of the buffer. */
    method MoveText(n: nat)
      requires textPtr + n <= chBuf.Length
      modifies chBuf
      ensures chBuf[..n] == old(chBuf[textPtr..textPtr + n])
    {
      var i := 0;
      while i < n
        invariant i <= n
        invariant forall p | 0 <= p < i :: chBuf[p] == old(chBuf[textPtr + p])
        invariant forall p | i <= p < chBuf.Length :: chBuf[p] == old(chBuf[p])
      {
        chBuf[i] := chBuf[textPtr + i];
        i := i + 1;
      }
    }

    /** The grow loop: the buffer is doubled until a character fits behind the `n` that were kept. */
    method MakeRoom(n: nat)
      requires 1 <= bufSize && chBuf.Length == bufSize + 2 && n <= bufSize
      modifies this`bufSize, this`chBuf
      ensures n + 1 < bufSize && chBuf.Length == bufSize + 2
      ensures chBuf[..n] == old(chBuf[..n]) && (chBuf == old(chBuf) || fresh(chBuf))
    {
      var numToRead := bufSize - n - 1;
      while numToRead <= 0
        invariant numToRead == bufSize - n - 1
        invariant 1 <= bufSize && chBuf.Length == bufSize + 2 && n <= bufSize
        invariant chBuf[..n] == old(chBuf[..n]) && (chBuf == old(chBuf) || fresh(chBuf))
        decreases n + 1 - bufSize
      {
        bufSize := bufSize * 2;
        var larger := new Byte[bufSize + 2];
        forall i | 0 <= i < chBuf.Length { larger[i] := chBuf[i]; }
        chBuf := larger;
        numToRead := bufSize - n - 1;
      }
    }

    /** The reading half of yy_get_next_buffer, behind the `n` characters that were kept. */
    method Refill(n: nat)
      requires 1 <= bufSize && chBuf.Length == bufSize + 2 && n <= bufSize
      requires status == EofPending ==> unread == []
      modifies this`chBuf, this`bufSize, this`bufNChars, this`nChars, this`unread, chBuf
      ensures chBuf.Length == bufSize + 2 && (chBuf == old(chBuf) || fresh(chBuf))
      ensures bufNChars == nChars <= |old(unread)| && (nChars == 0 <==> old(unread) == [])
      ensures 1 <= bufSize && n + nChars <= bufSize
      ensures chBuf[..n + nChars] == old(chBuf[..n]) + old(unread)[..nChars] && unread == old(unread)[nChars..]
    {
      if status == EofPending {
        bufNChars, nChars := 0, 0;
      } else {
        MakeRoom(n);
        var numToRead := bufSize - n - 1;
        if numToRead > YY_READ_BUF_SIZE { numToRead := YY_READ_BUF_SIZE; }
        nChars := Input(n, numToRead);
        bufNChars := nChars;
      }
    }

    /** yy_get_next_buffer: nothing of the stream is lost or invented, and the answer says what it can still give. */
    method GetNextBuffer() returns (act: EobAct)
      requires Filled() && status != New && textPtr <= nChars && cBufP == nChars + 1
      modifies this`chBuf, this`bufSize, this`bufNChars, this`atBol, this`status
      modifies this`nChars, this`cBufP, this`textPtr, this`hold, this`unread, chBuf
      ensures Filled() && (chBuf == old(chBuf) || fresh(chBuf))
      ensures textPtr == 0 && Stream(0) == old(Stream(textPtr))
      ensures act == if old(unread) != [] then ContinueScan else if old(textPtr == nChars) then EndOfFile else LastMatch
      ensures act == EndOfFile ==> cBufP == nChars == 0 && hold == 0 && unread == []
      ensures act != EndOfFile ==> atBol == old(atBol) && status != New
      ensures act == LastMatch ==> nChars == old(nChars - textPtr)
      ensures act == ContinueScan ==> nChars > old(nChars - textPtr) && |unread| < |old(unread)|
      ensures act != ContinueScan ==> unread == []
    {
      var numberToMove := cBufP - textPtr - 1;
      MoveText(numberToMove);
      Refill(numberToMove);
      assert old(unread)[..nChars] + old(unread)[nChars..] == old(unread);
      Associative(old(chBuf[textPtr..nChars]), old(unread)[..nChars], old(unread)[nChars..]);
      if nChars == 0 {
        if numberToMove == 0 {
          act := EndOfFile;
          Restart();
        } else {
          act := LastMatch;
          status := EofPending;
        }
      } else {
        act := ContinueScan;
      }
      // the last extension of the buffer is never needed: what was read fits
      assert nChars + numberToMove <= bufSize;
      Seal(numberToMove);
    }

    /** The end of yy_get_next_buffer: the sentinels go behind the `n` characters kept and the ones read. */
    method Seal(n: nat)
      requires n + nChars + 2 <= chBuf.Length
      modifies this`nChars, this`textPtr, chBuf
      ensures nChars == old(nChars) + n && textPtr == 0
      ensures chBuf[0..nChars] == old(chBuf[..n + nChars]) && chBuf[nChars] == chBuf[nChars + 1] == 0
    {
      nChars := nChars + n;
      chBuf[nChars] := 0;
      chBuf[nChars + 1] := 0;
      textPtr := 0;
    }

    // ----- the action of the end-of-buffer state

    /** The automaton is where `r` says, in the text that starts at `textPtr`. */
    ghost predicate Poised(r: Resume, s: nat, input: seq<Byte>)
      reads this`textPtr, this`lastState, this`lastPos
    {
      match r
      case Terminate => input == []
      case GoMatch(cp, state) => InText(t, s, input, textPtr, cp, state, lastState, lastPos)
      case GoFindAction(cp, state) => Findable(t, s, input, textPtr, cp, state, lastState, lastPos)
    }

    /** Where scanning goes on after the end-of-buffer action, in the same text of the same stream. */
    ghost predicate Resumes(r: Resume, s: nat, input: seq<Byte>)
      reads this, chBuf
    {
      match r
      case Terminate => Valid() && Rest() == [] && Poised(r, s, input)
      case GoMatch(cp, _) => Filled() && textPtr <= cp <= nChars && input == Stream(textPtr) && Poised(r, s, input)
      case GoFindAction(cp, _) => Filled() && textPtr <= cp <= nChars && input == Stream(textPtr) && Poised(r, s, input)
    }

    /** The automaton stopped at a NUL that is part of the input. */
    method RealNul(amount: nat, ghost s: nat, ghost input: seq<Byte>) returns (r: Resume)
      requires Filled() && textPtr + amount + 1 == cBufP <= nChars && chBuf[cBufP - 1] == 0
      requires input == Stream(textPtr) && s == StartState(start, atBol) && IsStart(s)
      modifies this`cBufP, this`lastState, this`lastPos
      ensures Poised(r, s, input) && !r.Terminate? && r.cp <= nChars
      ensures r.GoMatch? ==> r.cp == old(cBufP)
    {
      cBufP := textPtr + amount;
      assert input[cBufP - textPtr] == chBuf[cBufP];
      var state := GetPreviousState(s, input);
      r := OverNul(state, s, input);
    }

    /** Matching goes on behind the NUL, or ends in front of it. */
    method OverNul(state: nat, ghost s: nat, ghost input: seq<Byte>) returns (r: Resume)
      requires InText(t, s, input, textPtr, cBufP, state, lastState, lastPos)
      requires cBufP - textPtr < |input| && input[cBufP - textPtr] == 0
      modifies this`cBufP, this`lastState, this`lastPos
      ensures Poised(r, s, input) && !r.Terminate?
      ensures r.cp == if r.GoMatch? then old(cBufP) + 1 else old(cBufP)
    {
      var next := TryNulTrans(state, s, input, textPtr);
      if next != 0 {
        cBufP := cBufP + 1;
        r := GoMatch(cBufP, next);
      } else {
        r := GoFindAction(cBufP, state);
      }
    }

    /** The automaton stopped at the sentinel: more input is read, the text is scanned again or scanned to its end. */
    method AtSentinel(amount: nat, ghost s: nat, ghost input: seq<Byte>) returns (r: Resume)
      requires Filled() && status != New && textPtr + amount + 1 == cBufP == nChars + 1
      requires input == Stream(textPtr) && s == StartState(start, atBol) && IsStart(s)
      modifies this`chBuf, this`bufSize, this`bufNChars, this`atBol, this`status, this`nChars
      modifies this`cBufP, this`textPtr, this`hold, this`lastState, this`lastPos, this`unread, chBuf
      ensures Resumes(r, s, input) && (chBuf == old(chBuf) || fresh(chBuf))
      ensures !r.Terminate? ==> atBol == old(atBol)
      ensures r.GoMatch? ==> |unread| < |old(unread)|
      ensures r.GoFindAction? ==> |unread| <= |old(unread)|
    {
      var act := GetNextBuffer();
      r := AfterRefill(act, amount, s, input);
    }

    /** What the end-of-buffer action does with the answer of yy_get_next_buffer. */
    method AfterRefill(act: EobAct, amount: nat, ghost s: nat, ghost input: seq<Byte>) returns (r: Resume)
      requires Filled() && textPtr == 0 && input == Stream(0) && (act != ContinueScan ==> unread == [])
      requires act != EndOfFile ==> s == StartState(start, atBol) && IsStart(s)
      requires match act case EndOfFile => nChars == 0 && hold == 0 case ContinueScan => amount <= nChars case LastMatch => nChars > 0
      modifies this`cBufP, this`lastState, this`lastPos
      ensures Resumes(r, s, input)
      ensures (r.Terminate? <==> act == EndOfFile) && (r.GoMatch? <==> act == ContinueScan)
    {
      match act
      case EndOfFile =>
        r := Wrap(s, input);
      case ContinueScan =>
        r := ContinueAt(textPtr + amount, s, input);
      case LastMatch =>
        r := MatchLast(s, input);
    }

    /** EOB_ACT_END_OF_FILE: yywrap always says that there is no other file. */
    method Wrap(ghost s: nat, ghost input: seq<Byte>) returns (r: Resume)
      requires Filled() && textPtr == nChars == 0 && hold == 0 && unread == [] && input == Stream(0)
      modifies this`cBufP
      ensures Resumes(r, s, input) && r.Terminate?
    {
      cBufP := textPtr;
      r := Terminate;
    }

    /** EOB_ACT_CONTINUE_SCAN. */
    method ContinueAt(cp: nat, ghost s: nat, ghost input: seq<Byte>) returns (r: Resume)
      requires Filled() && textPtr <= cp <= nChars
      requires input == Stream(textPtr) && s == StartState(start, atBol) && IsStart(s)
      modifies this`cBufP, this`lastState, this`lastPos
      ensures Poised(r, s, input) && r.GoMatch? && r.cp == cp
    {
      cBufP := cp;
      var state := GetPreviousState(s, input);
      r := GoMatch(cBufP, state);
    }

    /** EOB_ACT_LAST_MATCH: the text goes up to the end of the input. */
    method MatchLast(ghost s: nat, ghost input: seq<Byte>) returns (r: Resume)
      requires Filled() && textPtr < nChars && unread == []
      requires input == Stream(textPtr) && s == StartState(start, atBol) && IsStart(s)
      modifies this`cBufP, this`lastState, this`lastPos
      ensures Poised(r, s, input) && r.GoFindAction? && r.cp == nChars
    {
      cBufP := nChars;
      var state := GetPreviousState(s, input);
      StuckHere(t, s, input, cBufP - textPtr);
      r := GoFindAction(cBufP, state);
    }

    method EndOfBufferAction(ghost s: nat, ghost input: seq<Byte>) returns (r: Resume)
      requires Filled() && textPtr < cBufP <= nChars + 1 && chBuf[cBufP - 1] == 0
      requires input == Stream(textPtr) && s == StartState(start, atBol) && IsStart(s)
      modifies this`chBuf, this`bufSize, this`bufNChars, this`atBol, this`status, this`nChars
      modifies this`cBufP, this`textPtr, this`hold, this`lastState, this`lastPos, this`unread, chBuf
      ensures Resumes(r, s, input) && (chBuf == old(chBuf) || fresh(chBuf))
      ensures !r.Terminate? ==> atBol == old(atBol)
      ensures r.GoMatch? ==> |unread| < |old(unread)| ||
                             (unread == old(unread) && r.cp == old(cBufP) && nChars == old(nChars))
      ensures r.GoFindAction? ==> |unread| <= |old(unread)|
    {
      var amount := cBufP - textPtr - 1;
      Adopt();
      r := AtNul(amount, s, input);
    }

    /** A buffer that is scanned for the first time: the scanner adopts its number of characters. */
    method Adopt()
      requires Filled()
      modifies this`nChars, this`status
      ensures Filled() && nChars == old(nChars) && status != New
    {
      if status == New {
        nChars := bufNChars;
        status := Normal;
      }
    }

    /** A NUL in front of the end of the buffer is one of the input. */
    method AtNul(amount: nat, ghost s: nat, ghost input: seq<Byte>) returns (r: Resume)
      requires Filled() && status != New && textPtr + amount + 1 == cBufP <= nChars + 1 && chBuf[cBufP - 1] == 0
      requires input == Stream(textPtr) && s == StartState(start, atBol) && IsStart(s)
      modifies this`chBuf, this`bufSize, this`bufNChars, this`atBol, this`status, this`nChars
      modifies this`cBufP, this`textPtr, this`hold, this`lastState, this`lastPos, this`unread, chBuf
      ensures Resumes(r, s, input) && (chBuf == old(chBuf) || fresh(chBuf))
      ensures !r.Terminate? ==> atBol == old(atBol)
      ensures r.GoMatch? ==> |unread| < |old(unread)| ||
                             (unread == old(unread) && r.cp == old(cBufP) && nChars == old(nChars))
      ensures r.GoFindAction? ==> |unread| <= |old(unread)|
    {
      if cBufP <= nChars {
        r := RealNul(amount, s, input);
      } else {
        r := AtSentinel(amount, s, input);
      }
    }

    // ----- one token

    /** YY_DO_BEFORE_ACTION: the text ends with a NUL, and the character that was there is kept. */
    method DoBeforeAction(bp: nat, cp: nat)
      requires Filled() && bp <= cp <= nChars + 1
      modifies this`textPtr, this`hold, this`cBufP, chBuf
      ensures textPtr == bp && cBufP == cp && hold == old(chBuf[cp])
      ensures chBuf[cp] == 0 && forall i | 0 <= i < chBuf.Length && i != cp :: chBuf[i] == old(chBuf[i])
      ensures cp <= nChars ==> Valid() && Rest() == old(Stream(cp)) && chBuf[bp..cp] == old(chBuf[bp..cp])
    {
      textPtr := bp;
      hold := chBuf[cp];
      chBuf[cp] := 0;
      cBufP := cp;
    }

    /** The first effect of the end-of-buffer action: the cut is undone. */
    method UndoBeforeAction()
      requires cBufP < chBuf.Length
      modifies chBuf
      ensures chBuf[cBufP] == hold && forall i | 0 <= i < chBuf.Length && i != cBufP :: chBuf[i] == old(chBuf[i])
    {
      chBuf[cBufP] := hold;
    }

    /** What takes the scanner closer to a token: reading, going on behind a NUL, or giving up matching. */
    ghost function Work(r: Resume): (int, int, int)
      reads this`unread, this`nChars
    {
      if r.Terminate? then (0, 0, 0) else (|unread|, if r.GoMatch? then 1 else 0, nChars - r.cp)
    }

    /** The end-of-buffer action, from YY_DO_BEFORE_ACTION on. */
    method EndOfBuffer(bp: nat, cp: nat, ghost r0: Resume, ghost s: nat, ghost input: seq<Byte>) returns (r: Resume)
      requires Filled() && bp < cp <= nChars + 1 && chBuf[cp - 1] == 0
      requires input == Stream(bp) && s == StartState(start, atBol) && IsStart(s)
      requires r0.GoMatch? && r0.cp < cp
      modifies this, chBuf
      ensures Resumes(r, s, input) && (chBuf == old(chBuf) || fresh(chBuf))
      ensures start == old(start)
      ensures !r.Terminate? ==> atBol == old(atBol) && Before(Work(r), old(Work(r0)))
    {
      DoBeforeAction(bp, cp);
      UndoBeforeAction();
      assert chBuf[bp..nChars] == old(chBuf[bp..nChars]);
      r := EndOfBufferAction(s, input);
    }

    /** The scanner has come to the end of `input`, or has taken its longest match off the front. */
    ghost predicate Yields(token: Option<Token>, s: nat, input: seq<Byte>)
      reads this, chBuf
    {
      match token
      case None => Valid() && input == [] && Rest() == []
      case Some(k) =>
        Valid() && 1 <= s <= JAM
        && Longest(t, s, input, k) && Rest() == input[|k.text|..] && atBol == BolAfter(k.text)
    }

    lemma YieldsPlainly(token: Option<Token>, s: nat, input: seq<Byte>)
      requires Yields(token, s, input)
      ensures token.Some? ==> 1 <= s <= JAM && Longest(t, s, input, token.value) && Valid()
      ensures token.Some? ==> token.value.text + Rest() == input && (atBol <==> token.value.text[|token.value.text| - 1] == 10)
      ensures token.None? ==> input == []
    {
    }

    /** yylex up to the action of the next rule: the longest match of the input that is left, or the end of it. */
    method NextToken() returns (token: Option<Token>)
      requires Valid() && IsStart(start) && IsStart(start + 1)
      modifies this, chBuf
      ensures start == old(start) && (chBuf == old(chBuf) || fresh(chBuf))
      ensures Yields(token, StartState(start, old(atBol)), old(Rest()))
      ensures token.Some? ==>
                && Longest(t, start + (if old(atBol) then 1 else 0), old(Rest()), token.value)
                && token.value.text + Rest() == old(Rest()) && (atBol <==> token.value.text[|token.value.text| - 1] == 10)
      ensures token.None? ==> old(Rest()) == []
    {
      ghost var input, s := Rest(), StartState(start, atBol);
      var r := BeginToken(s, input);
      token := Rounds(r, s, input);
      YieldsPlainly(token, s, input);
    }

    /** The passes through yylex up to the action of the next rule. */
    method Rounds(r0: Resume, ghost s: nat, ghost input: seq<Byte>) returns (token: Option<Token>)
      requires Resumes(r0, s, input) && !r0.Terminate? && s == StartState(start, atBol) && IsStart(s)
      modifies this, chBuf
      ensures start == old(start) && (chBuf == old(chBuf) || fresh(chBuf))
      ensures Yields(token, s, input)
    {
      var r := r0;
      while true
        invariant Resumes(r, s, input) && !r.Terminate? && (chBuf == old(chBuf) || fresh(chBuf))
        invariant start == old(start) && atBol == old(atBol)
        decreases Work(r).0, Work(r).1, Work(r).2
      {
        token, r := Round(r, s, input);
        if token.Some? || r.Terminate? { return; }
      }
    }

    /** What yy_find_action has found: a token, or the action of the end-of-buffer state just behind a NUL. */
    ghost predicate Found(act: nat, cp: nat, r: Resume, s: nat, input: seq<Byte>)
      reads this, chBuf
    {
      && Filled() && textPtr <= nChars && input == Stream(textPtr) && 1 <= s <= JAM
      && if act == END_OF_BUFFER then
           r.GoMatch? && textPtr < cp && r.cp < cp <= nChars + 1 && chBuf[cp - 1] == 0
         else
           textPtr < cp <= nChars && Longest(t, s, input, Token(act, input[..cp - textPtr]))
    }

    /** One pass from yy_match or yy_find_action to the action. */
    method Round(r0: Resume, ghost s: nat, ghost input: seq<Byte>) returns (token: Option<Token>, r: Resume)
      requires Resumes(r0, s, input) && !r0.Terminate? && s == StartState(start, atBol) && IsStart(s)
      modifies this, chBuf
      ensures start == old(start) && (chBuf == old(chBuf) || fresh(chBuf))
      ensures token.Some? || r.Terminate? ==> Yields(token, s, input)
      ensures token == None ==> Resumes(r, s, input)
      ensures token == None && !r.Terminate? ==>
                atBol == old(atBol) && Before(Work(r), old(Work(r0)))
    {
      var act, cp := Find(r0, s, input);
      token, r := Act(act, cp, r0, s, input);
    }

    /** The action, which for a rule ends the pass. */
    method Act(act: nat, cp: nat, ghost r0: Resume, ghost s: nat, ghost input: seq<Byte>)
        returns (token: Option<Token>, r: Resume)
      requires Found(act, cp, r0, s, input) && !r0.Terminate? && s == StartState(start, atBol) && IsStart(s)
      modifies this, chBuf
      ensures start == old(start) && (chBuf == old(chBuf) || fresh(chBuf))
      ensures token.Some? || r.Terminate? ==> Yields(token, s, input)
      ensures token == None ==> Resumes(r, s, input)
      ensures token == None && !r.Terminate? ==>
                atBol == old(atBol) && Before(Work(r), old(Work(r0)))
    {
      if act != END_OF_BUFFER {
        token := Accept(act, textPtr, cp, s, input);
        r := Terminate;
      } else {
        token := None;
        r := EndOfBuffer(textPtr, cp, r0, s, input);
      }
    }

    /** The start of a round of yylex: the cut of the last token is undone, the automaton is in its start state. */
    method BeginToken(ghost s: nat, ghost input: seq<Byte>) returns (r: Resume)
      requires Valid() && input == Rest() && s == StartState(start, atBol) && IsStart(s)
      modifies this`textPtr, chBuf
      ensures Resumes(r, s, input) && r.GoMatch?
    {
      chBuf[cBufP] := hold;
      textPtr := cBufP;
      assert input[..0] == [];
      r := GoMatch(cBufP, start + if atBol then 1 else 0);
    }

    /** YY_DO_BEFORE_ACTION and YY_RULE_SETUP of an ordinary rule. */
    method Accept(act: nat, bp: nat, cp: nat, ghost s: nat, ghost input: seq<Byte>) returns (token: Option<Token>)
      requires Filled() && bp < cp <= nChars && input == Stream(bp)
      requires 1 <= s <= JAM && Longest(t, s, input, Token(act, input[..cp - bp]))
      modifies this`textPtr, this`hold, this`cBufP, this`atBol, chBuf
      ensures Yields(token, s, input)
    {
      assert Stream(cp) == input[cp - bp..] && chBuf[bp..cp] == input[..cp - bp];
      DoBeforeAction(bp, cp);
      assert chBuf[bp..cp][cp - bp - 1] == chBuf[cp - 1];
      atBol := chBuf[cp - 1] == NEWLINE;
      token := Some(Token(act, chBuf[bp..cp]));
    }

    /** From yy_match, or straight from yy_find_action. */
    method Find(r: Resume, ghost s: nat, ghost input: seq<Byte>) returns (act: nat, cp: nat)
      requires Resumes(r, s, input) && !r.Terminate?
      modifies this`lastState, this`lastPos
      ensures Found(act, cp, r, s, input)
    {
      if r.GoMatch? {
        act, cp := FindByMatching(r, s, input);
      } else {
        act, cp := FindDirectly(r, s, input);
      }
    }

    method FindByMatching(r: Resume, ghost s: nat, ghost input: seq<Byte>) returns (act: nat, cp: nat)
      requires Resumes(r, s, input) && r.GoMatch?
      modifies this`lastState, this`lastPos
      ensures Found(act, cp, r, s, input)
    {
      act, cp := MatchAndFind(r.cp, r.state, s, input, textPtr);
    }

    method FindDirectly(r: Resume, ghost s: nat, ghost input: seq<Byte>) returns (act: nat, cp: nat)
      requires Resumes(r, s, input) && r.GoFindAction?
      ensures Found(act, cp, r, s, input)
    {
      assert Findable(t, s, input, textPtr, r.cp, r.state, lastState, lastPos);
      if t.accept[r.state] == 0 { LastStateIsState(s, input, textPtr, r.cp, r.state); }
      act, cp := FindAction(r.cp, r.state, s, input, textPtr);
    }
  }

  /**
   A whole run of the scanner, its rules setting the start condition through `begin`: whatever
   the size of the buffer and however the input arrives, the tokens are those of the input.
   */
  method ScanAll(t: Automaton, size: nat, input: seq<Byte>, begin: Begin) returns (tokens: seq<Token>)
    requires size >= 1 && Starts(begin)
    ensures Scans(t, begin, [], true, input, tokens) && Texts(tokens) == input
    ensures forall n: nat | n < |tokens| ::
              var at := |Texts(tokens[..n])|;
              && at < |input|
              && Longest(t, begin(tokens[..n]) + (if at == 0 || input[at - 1] == 10 then 1 else 0), input[at..], tokens[n])
  {
    ghost var expected := ScanExists(t, begin, [], true, input);
    tokens := ScanInput(t, size, input, begin, expected);
    ScansEverything(t, begin, [], true, input, tokens);
    forall n: nat | n < |tokens|
      ensures var at := |Texts(tokens[..n])|;
              && at < |input|
              && Longest(t, begin(tokens[..n]) + (if at == 0 || input[at - 1] == 10 then 1 else 0), input[at..], tokens[n])
    {
      ScansFromStart(t, begin, input, tokens, n);
    }
  }

  /** The calls of the scanner until it is at the end of the input. */
  method ScanInput(t: Automaton, size: nat, input: seq<Byte>, begin: Begin, ghost expected: seq<Token>) returns (tokens: seq<Token>)
    requires size >= 1 && Starts(begin) && Scans(t, begin, [], true, input, expected)
    ensures tokens == expected
  {
    var sc := new Scanner(t, size, input);
    tokens := [];
    while true
      invariant sc.Valid() && sc.t == t && fresh(sc) && fresh(sc.chBuf)
      invariant |tokens| <= |expected| && tokens == expected[..|tokens|]
      invariant Scans(t, begin, tokens, sc.atBol, sc.Rest(), expected[|tokens|..])
      decreases |sc.Rest()|
    {
      ghost var rest, bol := sc.Rest(), sc.atBol;
      var token := NextOf(sc, begin, tokens);
      if token == None {
        assert tokens == expected;
        return;
      }
      ScansNext(t, begin, expected, |tokens|, bol, rest, token.value);
      tokens := tokens + [token.value];
    }
  }

  /** BEGIN, then the next token. */
  method NextOf(sc: Scanner, begin: Begin, history: seq<Token>) returns (token: Option<Token>)
    requires sc.Valid() && Starts(begin)
    modifies sc, sc.chBuf
    ensures sc.Valid() && (sc.chBuf == old(sc.chBuf) || fresh(sc.chBuf))
    ensures sc.Yields(token, StartState(begin(history), old(sc.atBol)), old(sc.Rest()))
  {
    sc.start := begin(history);
    token := sc.NextToken();
  }
}
