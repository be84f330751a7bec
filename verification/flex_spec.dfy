/**
 Scanning without a buffer: the whole input is at hand, and each token is the longest prefix
 that drives the automaton into an accepting state.
 */
module FlexSpec {
  import opened FlexTables

  /** A matched rule and the text it matched (yytext). */
  datatype Token = Token(rule: nat, text: seq<Byte>)

  const NEWLINE: Byte := 10

  function Run(t: Automaton, s: nat, text: seq<Byte>): (r: nat)
    requires 1 <= s <= JAM
    ensures 1 <= r <= JAM
  {
    if text == [] then s else Delta(t, Run(t, s, text[..|text| - 1]), Class(t, text[|text| - 1]))
  }

  /** The action reached after the first `n` characters; 0 is none. */
  function Action(t: Automaton, s: nat, input: seq<Byte>, n: nat): nat
    requires 1 <= s <= JAM && n <= |input|
  {
    t.accept[Run(t, s, input[..n])]
  }

  /** The longest match of at least one character. */
  ghost predicate Longest(t: Automaton, s: nat, input: seq<Byte>, token: Token)
    requires 1 <= s <= JAM
  {
    && 0 < |token.text| && token.text <= input
    && token.rule == Action(t, s, input, |token.text|) != 0
    && forall n | |token.text| < n <= |input| :: Action(t, s, input, n) == 0
  }

  /** The start condition after a history of tokens, as the actions of the rules set it (BEGIN). */
  type Begin = seq<Token> -> nat

  /** Every condition has two start states, the second for the beginning of a line. */
  ghost predicate Starts(begin: Begin) {
    forall h: seq<Token> :: IsStart(begin(h)) && IsStart(begin(h) + 1)
  }

  function StartState(begin: nat, bol: bool): nat {
    begin + if bol then 1 else 0
  }

  /** At the beginning of a line after this token (YY_RULE_SETUP). */
  function BolAfter(text: seq<Byte>): bool
    requires text != []
  {
    text[|text| - 1] == NEWLINE
  }

  /** `tokens` is what scanning all of `input` yields, given the tokens before it. */
  ghost predicate Scans(t: Automaton, begin: Begin, history: seq<Token>, bol: bool, input: seq<Byte>, tokens: seq<Token>)
    requires Starts(begin)
    decreases |tokens|
  {
    if input == [] then tokens == []
    else
      && tokens != []
      && Longest(t, StartState(begin(history), bol), input, tokens[0])
      && Scans(t, begin, history + [tokens[0]], BolAfter(tokens[0].text), input[|tokens[0].text|..], tokens[1..])
  }

  // ----- facts

  lemma RunNext(t: Automaton, s: nat, input: seq<Byte>, n: nat)
    requires 1 <= s <= JAM && n < |input|
    ensures Run(t, s, input[..n + 1]) == Delta(t, Run(t, s, input[..n]), Class(t, input[n]))
  {
    assert input[..n + 1][..n] == input[..n];
  }

  /** How the automaton reads: a NUL of the input under class 1, every other character under its own. */
  lemma RunStep(t: Automaton, s: nat, text: seq<Byte>, b: Byte)
    requires 1 <= s <= JAM
    ensures Run(t, s, []) == s
    ensures Run(t, s, text + [b]) == Delta(t, Run(t, s, text), if b == 0 then 1 else t.ec[b])
  {
    assert (text + [b])[..|text|] == text;
  }

  /** Once the next character jams, or there is none, nothing longer matches. */
  ghost predicate Stuck(t: Automaton, s: nat, input: seq<Byte>, n: nat)
    requires 1 <= s <= JAM
  {
    n <= |input| && forall m | n < m <= |input| :: Run(t, s, input[..m]) == JAM
  }

  lemma ClassIsNoSentinel(t: Automaton, b: Byte)
    ensures 1 <= Class(t, b)
  {
  }

  lemma {:induction false} JamIsStuck(t: Automaton, s: nat, input: seq<Byte>, n: nat, m: nat)
    requires 1 <= s <= JAM && n < m <= |input|
    requires Delta(t, Run(t, s, input[..n]), Class(t, input[n])) == JAM
    ensures Run(t, s, input[..m]) == JAM
    decreases m
  {
    if m == n + 1 {
      RunNext(t, s, input, n);
    } else {
      JamIsStuck(t, s, input, n, m - 1);
      RunNext(t, s, input, m - 1);
      ClassIsNoSentinel(t, input[m - 1]);
      JamStays(t, Class(t, input[m - 1]));
    }
  }

  lemma StuckHere(t: Automaton, s: nat, input: seq<Byte>, n: nat)
    requires 1 <= s <= JAM && n <= |input|
    requires n < |input| ==> Delta(t, Run(t, s, input[..n]), Class(t, input[n])) == JAM
    ensures Stuck(t, s, input, n)
  {
    forall m | n < m <= |input| ensures Run(t, s, input[..m]) == JAM {
      JamIsStuck(t, s, input, n, m);
    }
  }

  /** A longest match is what the automaton stopped on, or the last accepting state it came through. */
  lemma StuckIsLongest(t: Automaton, s: nat, input: seq<Byte>, n: nat, m: nat)
    requires IsStart(s) && 1 <= m <= n && Stuck(t, s, input, n)
    requires Action(t, s, input, m) != 0 && forall i | m < i <= n :: Action(t, s, input, i) == 0
    ensures Longest(t, s, input, Token(Action(t, s, input, m), input[..m]))
  {
  }

  /** From a start state the first character is always accepted, by the default rule if by no other. */
  lemma FirstCharacter(t: Automaton, s: nat, input: seq<Byte>)
    requires IsStart(s) && input != []
    ensures Action(t, s, input, 1) != 0 && Action(t, s, input, 0) == 0
  {
    RunNext(t, s, input, 0);
    assert input[..0] == [];
    assert DefaultRule(t, s, Class(t, input[0]));
  }

  /** Characters never lead to the end-of-buffer state. */
  lemma NeverEndOfBuffer(t: Automaton, s: nat, input: seq<Byte>, n: nat)
    requires IsStart(s) && n <= |input|
    ensures Action(t, s, input, n) != END_OF_BUFFER
  {
    if n > 0 {
      RunNext(t, s, input, n - 1);
      assert CharacterGoesOn(t, Run(t, s, input[..n - 1]), Class(t, input[n - 1]));
    } else {
      assert input[..0] == [];
    }
  }

  /** There is a longest match on any nonempty input. */
  lemma {:induction false} LongestExists(t: Automaton, s: nat, input: seq<Byte>, n: nat) returns (token: Token)
    requires IsStart(s) && 1 <= n <= |input|
    requires forall m | n < m <= |input| :: Action(t, s, input, m) == 0
    ensures Longest(t, s, input, token)
    decreases n
  {
    if Action(t, s, input, n) != 0 {
      token := Token(Action(t, s, input, n), input[..n]);
    } else {
      FirstCharacter(t, s, input);
      token := LongestExists(t, s, input, n - 1);
    }
  }

  lemma LongestIsUnique(t: Automaton, s: nat, input: seq<Byte>, a: Token, b: Token)
    requires 1 <= s <= JAM && Longest(t, s, input, a) && Longest(t, s, input, b)
    ensures a == b
  {
    if |a.text| == |b.text| {
      assert a.text == input[..|a.text|] == b.text;
    }
  }

  /** An input has exactly one token sequence. */
  lemma {:induction false} ScanExists(t: Automaton, begin: Begin, history: seq<Token>, bol: bool, input: seq<Byte>)
      returns (tokens: seq<Token>)
    requires Starts(begin)
    ensures Scans(t, begin, history, bol, input, tokens)
    decreases |input|
  {
    if input == [] {
      tokens := [];
    } else {
      var token := LongestExists(t, StartState(begin(history), bol), input, |input|);
      var rest := ScanExists(t, begin, history + [token], BolAfter(token.text), input[|token.text|..]);
      tokens := [token] + rest;
    }
  }

  lemma {:induction false} ScanIsUnique(t: Automaton, begin: Begin, history: seq<Token>, bol: bool, input: seq<Byte>,
                                        a: seq<Token>, b: seq<Token>)
    requires Starts(begin)
    requires Scans(t, begin, history, bol, input, a) && Scans(t, begin, history, bol, input, b)
    ensures a == b
    decreases |a|
  {
    if input != [] {
      LongestIsUnique(t, StartState(begin(history), bol), input, a[0], b[0]);
      ScanIsUnique(t, begin, history + [a[0]], BolAfter(a[0].text), input[|a[0].text|..], a[1..], b[1..]);
      assert a == [a[0]] + a[1..] && b == [b[0]] + b[1..];
    }
  }

  /** A longest match is the next token of the scan. */
  lemma ScansNext(t: Automaton, begin: Begin, tokens: seq<Token>, n: nat, bol: bool, input: seq<Byte>, next: Token)
    requires Starts(begin) && n <= |tokens| && Scans(t, begin, tokens[..n], bol, input, tokens[n..])
    requires Longest(t, StartState(begin(tokens[..n]), bol), input, next)
    ensures n < |tokens| && tokens[..n] + [next] == tokens[..n + 1]
    ensures Scans(t, begin, tokens[..n + 1], BolAfter(next.text), input[|next.text|..], tokens[n + 1..])
  {
    LongestIsUnique(t, StartState(begin(tokens[..n]), bol), input, next, tokens[n..][0]);
    assert tokens[n..][1..] == tokens[n + 1..];
    assert tokens[..n] + [next] == tokens[..n + 1];
  }

  // ----- what a scan says of the input, place by place

  /** The texts of the tokens, one behind the other. */
  function Texts(tokens: seq<Token>): seq<Byte> {
    if tokens == [] then [] else tokens[0].text + Texts(tokens[1..])
  }

  /** The tokens take up all of the input. */
  lemma {:induction false} ScansEverything(t: Automaton, begin: Begin, history: seq<Token>, bol: bool, input: seq<Byte>,
                                           tokens: seq<Token>)
    requires Starts(begin) && Scans(t, begin, history, bol, input, tokens)
    ensures Texts(tokens) == input
    decreases |tokens|
  {
    if input != [] {
      var n := |tokens[0].text|;
      ScansHead(t, begin, history, bol, input, tokens);
      ScansEverything(t, begin, history + [tokens[0]], input[n - 1] == 10, input[n..], tokens[1..]);
      assert input == input[..n] + input[n..];
    }
  }

  /** A token is the longest match at `at`, from the second start state just behind a newline. */
  ghost predicate TokenAt(t: Automaton, begin: nat, bol: bool, input: seq<Byte>, at: nat, token: Token) {
    var s := begin + (if (if at == 0 then bol else at <= |input| && input[at - 1] == 10) then 1 else 0);
    at < |input| && 1 <= s <= JAM && Longest(t, s, input[at..], token)
  }

  lemma TokenFurtherOn(t: Automaton, begin: nat, bol: bool, input: seq<Byte>, k: nat, at: nat, token: Token)
    requires 0 < k <= |input| && TokenAt(t, begin, input[k - 1] == 10, input[k..], at, token)
    ensures TokenAt(t, begin, bol, input, k + at, token)
  {
    assert input[k..][at..] == input[k + at..];
  }

  /** The first token of a scan, and what is left to the others. */
  lemma ScansHead(t: Automaton, begin: Begin, history: seq<Token>, bol: bool, input: seq<Byte>, tokens: seq<Token>)
    requires Starts(begin) && Scans(t, begin, history, bol, input, tokens) && tokens != []
    ensures TokenAt(t, begin(history), bol, input, 0, tokens[0])
    ensures 0 < |tokens[0].text| <= |input| && tokens[0].text == input[..|tokens[0].text|]
    ensures Scans(t, begin, history + [tokens[0]], input[|tokens[0].text| - 1] == 10, input[|tokens[0].text|..], tokens[1..])
  {
    assert input[0..] == input;
    assert tokens[0].text == input[..|tokens[0].text|];
  }

  lemma TextsHead(history: seq<Token>, tokens: seq<Token>, n: nat)
    requires 0 < n <= |tokens|
    ensures |Texts(tokens[..n])| == |tokens[0].text| + |Texts(tokens[1..][..n - 1])|
    ensures history + [tokens[0]] + tokens[1..][..n - 1] == history + tokens[..n]
  {
    assert tokens[..n][1..] == tokens[1..][..n - 1];
  }

  /** The token after `n` others is where their texts end. */
  ghost predicate Follows(t: Automaton, begin: Begin, history: seq<Token>, bol: bool, input: seq<Byte>, tokens: seq<Token>, n: nat)
    requires n < |tokens|
  {
    TokenAt(t, begin(history + tokens[..n]), bol, input, |Texts(tokens[..n])|, tokens[n])
  }

  lemma FirstFollows(t: Automaton, begin: Begin, history: seq<Token>, bol: bool, input: seq<Byte>, tokens: seq<Token>)
    requires tokens != [] && TokenAt(t, begin(history), bol, input, 0, tokens[0])
    ensures Follows(t, begin, history, bol, input, tokens, 0)
  {
    assert tokens[..0] == [] && history + tokens[..0] == history;
  }

  lemma NextFollows(t: Automaton, begin: Begin, history: seq<Token>, bol: bool, input: seq<Byte>, tokens: seq<Token>, n: nat)
    requires 0 < n < |tokens| && 0 < |tokens[0].text| <= |input|
    requires Follows(t, begin, history + [tokens[0]], input[|tokens[0].text| - 1] == 10, input[|tokens[0].text|..], tokens[1..], n - 1)
    ensures Follows(t, begin, history, bol, input, tokens, n)
  {
    TextsHead(history, tokens, n);
    TokenFurtherOn(t, begin(history + tokens[..n]), bol, input, |tokens[0].text|, |Texts(tokens[1..][..n - 1])|, tokens[n]);
  }

  /** Every token stands where the texts before it end. */
  lemma {:induction false} ScansAt(t: Automaton, begin: Begin, history: seq<Token>, bol: bool, input: seq<Byte>,
                                   tokens: seq<Token>, n: nat)
    requires Starts(begin) && Scans(t, begin, history, bol, input, tokens) && n < |tokens|
    ensures Follows(t, begin, history, bol, input, tokens, n)
    decreases n
  {
    ScansHead(t, begin, history, bol, input, tokens);
    if n == 0 {
      FirstFollows(t, begin, history, bol, input, tokens);
    } else {
      var k := |tokens[0].text|;
      ScansAt(t, begin, history + [tokens[0]], input[k - 1] == 10, input[k..], tokens[1..], n - 1);
      NextFollows(t, begin, history, bol, input, tokens, n);
    }
  }

  /**
   In whatever way the tokens before it cut the input, a token is the longest match where it
   begins, from the first or the second start state, the second just at the beginning of a line.
   */
  lemma ScansFromStart(t: Automaton, begin: Begin, input: seq<Byte>, tokens: seq<Token>, n: nat)
    requires Starts(begin) && Scans(t, begin, [], true, input, tokens) && n < |tokens|
    ensures var at := |Texts(tokens[..n])|;
            && at < |input|
            && Longest(t, begin(tokens[..n]) + (if at == 0 || input[at - 1] == 10 then 1 else 0), input[at..], tokens[n])
  {
    ScansAt(t, begin, [], true, input, tokens, n);
    assert [] + tokens[..n] == tokens[..n];
  }
}
