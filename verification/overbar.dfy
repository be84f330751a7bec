/**
 Overbar markup: a text in which backslash-underscore turns an overbar on and off and a
 backslash before any other character stands for that character.
 */
module Overbar {
  import opened Wrappers

  const NUL := '\U{0000}'

  /** An overbar over the bytes from `start` up to, not including, `end`. */
  datatype Range = Range(start: nat, end: nat)

  /** What a piece of markup means: a character of the text, or an overbar delimiter. */
  datatype Symbol = Char(c: char) | Bar

  /** The symbols of a markup string; a backslash at its very end means nothing. */
  function Symbols(s: string): seq<Symbol> {
    if s == "" then []
    else if s[0] != '\\' then [Char(s[0])] + Symbols(s[1..])
    else if |s| == 1 then []
    else [if s[1] == '_' then Bar else Char(s[1])] + Symbols(s[2..])
  }

  /** The characters among the symbols. */
  function TextOf(symbols: seq<Symbol>): string {
    if symbols == [] then ""
    else
      var rest, last := TextOf(symbols[..|symbols| - 1]), symbols[|symbols| - 1];
      if last.Bar? then rest else rest + [last.c]
  }

  /** For every delimiter the number of characters before it. */
  function BarsOf(symbols: seq<Symbol>): seq<nat> {
    if symbols == [] then []
    else
      var before := symbols[..|symbols| - 1];
      if symbols[|symbols| - 1].Bar? then BarsOf(before) + [|TextOf(before)|] else BarsOf(before)
  }

  /** Every two delimiters enclose a range; an odd one at the end encloses none. */
  function Pairs(bars: seq<nat>): seq<Range> {
    seq(|bars| / 2, k requires 0 <= k < |bars| / 2 => Range(bars[2 * k], bars[2 * k + 1]))
  }

  function Text(s: string): string {
    TextOf(Symbols(s))
  }

  function Ranges(s: string): seq<Range> {
    Pairs(BarsOf(Symbols(s)))
  }

  /** Where the overbar begins that the markup leaves open. */
  function Open(s: string): Option<nat> {
    var bars := BarsOf(Symbols(s));
    if |bars| % 2 == 0 then None else Some(bars[|bars| - 1])
  }

  lemma SymbolStep(done: seq<Symbol>, x: Symbol)
    ensures TextOf(done + [x]) == TextOf(done) + (if x.Bar? then [] else [x.c])
    ensures BarsOf(done + [x]) == BarsOf(done) + (if x.Bar? then [|TextOf(done)|] else [])
  {
    assert (done + [x])[..|done|] == done;
  }

  lemma PairsStep(bars: seq<nat>, x: nat)
    ensures Pairs(bars + [x]) ==
            if |bars| % 2 == 1 then Pairs(bars) + [Range(bars[|bars| - 1], x)] else Pairs(bars)
  {
    var all, half := bars + [x], |bars| / 2;
    assert forall k | 0 <= k < half :: Pairs(all)[k] == Pairs(bars)[k];
    if |bars| % 2 == 1 { assert Pairs(all) == Pairs(all)[..half] + [Range(bars[|bars| - 1], x)]; }
  }

  /** The symbols in front of position `i` are `done`, but for an escape character perhaps. */
  ghost predicate Reading(input: string, i: nat, escaped: bool, done: seq<Symbol>) {
    if escaped then 0 < i <= |input| && input[i - 1] == '\\' && Symbols(input) == done + Symbols(input[i - 1..])
    else i <= |input| && Symbols(input) == done + Symbols(input[i..])
  }

  /** The delimiters among the symbols read make these ranges, and perhaps an open one. */
  ghost predicate Paired(done: seq<Symbol>, start: Option<nat>, ranges: seq<Range>) {
    BarsPaired(BarsOf(done), start, ranges)
  }

  ghost predicate BarsPaired(bars: seq<nat>, start: Option<nat>, ranges: seq<Range>) {
    ranges == Pairs(bars) && start == if |bars| % 2 == 0 then None else Some(bars[|bars| - 1])
  }

  lemma BarStep(bars: seq<nat>, x: nat, start: Option<nat>, ranges: seq<Range>)
    requires BarsPaired(bars, start, ranges)
    ensures if start.Some? then BarsPaired(bars + [x], None, ranges + [Range(start.value, x)])
            else BarsPaired(bars + [x], Some(x), ranges)
  {
    PairsStep(bars, x);
  }

  /** What one character of the input adds. */
  lemma ReadingStep(input: string, i: nat, escaped: bool, done: seq<Symbol>)
    requires Reading(input, i, escaped, done) && i < |input|
    ensures if input[i] == '\\' && !escaped then Reading(input, i + 1, true, done)
            else Reading(input, i + 1, false, done + [if escaped && input[i] == '_' then Bar else Char(input[i])])
  {
    var x := if escaped && input[i] == '_' then Bar else Char(input[i]);
    if escaped {
      assert input[i - 1..][2..] == input[i + 1..];
    } else if input[i] != '\\' {
      assert input[i..][1..] == input[i + 1..];
    }
    Associative(done, [x], Symbols(input[i + 1..]));
  }

  lemma PairedStep(done: seq<Symbol>, x: Symbol, start: Option<nat>, ranges: seq<Range>)
    requires Paired(done, start, ranges)
    ensures TextOf(done + [x]) == TextOf(done) + (if x.Bar? then [] else [x.c])
    ensures if x.Char? then Paired(done + [x], start, ranges)
            else if start.Some? then Paired(done + [x], None, ranges + [Range(start.value, |TextOf(done)|)])
            else Paired(done + [x], Some(|TextOf(done)|), ranges)
  {
    SymbolStep(done, x);
    if x.Bar? { BarStep(BarsOf(done), |TextOf(done)|, start, ranges); }
  }

  lemma ReadingEnds(input: string, escaped: bool, done: seq<Symbol>)
    requires Reading(input, |input|, escaped, done)
    ensures Symbols(input) == done
  {
    var i := |input|;
    if escaped { assert input[i - 1..] == ['\\']; } else { assert input[i..] == ""; }
  }

  /** The buffer holds the text of the symbols read, and zeros behind it. */
  ghost predicate Holds(buffer: array<char>, n: nat, text: string)
    reads buffer
  {
    n == |text| <= buffer.Length && buffer[..n] == text && forall k | n <= k < buffer.Length :: buffer[k] == NUL
  }

  method Put(buffer: array<char>, n: nat, c: char, ghost text: string)
    requires n < buffer.Length && Holds(buffer, n, text)
    modifies buffer
    ensures Holds(buffer, n + 1, text + [c])
  {
    buffer[n] := c;
    assert buffer[..n + 1] == text + [c];
  }

  /** The rest of the loop body, for a character that does not begin an escape. */
  method Take(c: char, escaped: bool, buffer: array<char>, n0: nat, start0: Option<nat>, ranges0: seq<Range>, ghost done0: seq<Symbol>)
      returns (n: nat, start: Option<nat>, ranges: seq<Range>, ghost done: seq<Symbol>)
    requires n0 < buffer.Length && Holds(buffer, n0, TextOf(done0)) && Paired(done0, start0, ranges0)
    modifies buffer
    ensures done == done0 + [if escaped && c == '_' then Bar else Char(c)] && n <= n0 + 1
    ensures Holds(buffer, n, TextOf(done)) && Paired(done, start, ranges)
  {
    n, start, ranges := n0, start0, ranges0;
    var end: Option<nat> := None;
    if c == '_' && escaped {
      done := done0 + [Bar];
      PairedStep(done0, Bar, start, ranges);
      if start.Some? { end := Some(n); } else { start := Some(n); }
    } else {
      done := done0 + [Char(c)];
      PairedStep(done0, Char(c), start, ranges);
      Put(buffer, n, c, TextOf(done0));
      n := n + 1;
    }
    if start.Some? && end.Some? {
      ranges := ranges + [Range(start.value, end.value)];
      start := None;
    }
  }

  /** The loop body. */
  method Read(c: char, escaped0: bool, buffer: array<char>, n0: nat, start0: Option<nat>, ranges0: seq<Range>, ghost done0: seq<Symbol>)
      returns (n: nat, escaped: bool, start: Option<nat>, ranges: seq<Range>, ghost done: seq<Symbol>)
    requires n0 < buffer.Length && Holds(buffer, n0, TextOf(done0)) && Paired(done0, start0, ranges0)
    modifies buffer
    ensures escaped <==> c == '\\' && !escaped0
    ensures done == if escaped then done0 else done0 + [if escaped0 && c == '_' then Bar else Char(c)]
    ensures n <= n0 + 1 && Holds(buffer, n, TextOf(done)) && Paired(done, start, ranges)
  {
    n, escaped, start, ranges, done := n0, escaped0, start0, ranges0, done0;
    if c == '\\' && !escaped {
      escaped := true;
    } else {
      n, start, ranges, done := Take(c, escaped, buffer, n, start, ranges, done);
      escaped := false;
    }
  }

  /**
   eda_pango_parse_overbars on a whole string: one pass, which writes the text to a zeroed
   buffer and lists the ranges. The terminator, which the pass visits last, adds at most
   another zero, and lists an overbar that is still open; its end is never set, so only its
   start is returned.
   */
  method ParseOverbars(input: string) returns (buffer: array<char>, n: nat, ranges: seq<Range>, open: Option<nat>)
    requires NUL !in input
    ensures fresh(buffer) && buffer.Length == |input| + 1 && n <= |input|
    ensures Holds(buffer, n, Text(input))
    ensures ranges == Ranges(input) && open == Open(input)
  {
    buffer := new char[|input| + 1](_ => NUL);
    n, ranges, open := 0, [], None;
    var escaped, start: Option<nat>, i := false, None, 0;
    ghost var done: seq<Symbol> := [];
    assert input[0..] == input;
    while i < |input|
      invariant n <= i <= |input| && Reading(input, i, escaped, done)
      invariant Holds(buffer, n, TextOf(done)) && Paired(done, start, ranges)
    {
      ReadingStep(input, i, escaped, done);
      n, escaped, start, ranges, done := Read(input[i], escaped, buffer, n, start, ranges, done);
      i := i + 1;
    }
    ReadingEnds(input, escaped, done);
    open := start;
  }

  /** Ranges that can be written down: in order, not overlapping, within a text of `n` bytes. */
  ghost predicate Ordered(ranges: seq<Range>, n: nat) {
    && (forall k | 0 <= k < |ranges| :: ranges[k].start <= ranges[k].end <= n)
    && (forall k | 0 <= k < |ranges| - 1 :: ranges[k].end <= ranges[k + 1].start)
  }

  ghost predicate Rising(bars: seq<nat>, n: nat) {
    && (forall k | 0 <= k < |bars| :: bars[k] <= n)
    && (forall k | 0 <= k < |bars| - 1 :: bars[k] <= bars[k + 1])
  }

  /** The ends of the ranges. */
  function Marks(ranges: seq<Range>): (bars: seq<nat>)
    ensures |bars| == 2 * |ranges|
  {
    seq(2 * |ranges|, k requires 0 <= k < 2 * |ranges| => if k % 2 == 0 then ranges[k / 2].start else ranges[k / 2].end)
  }

  /** Delimiters put into a text at the places given. */
  function Interleave(text: string, bars: seq<nat>): seq<Symbol>
    decreases |text| + |bars|
  {
    if bars != [] && (text == "" || bars[|bars| - 1] == |text|) then Interleave(text, bars[..|bars| - 1]) + [Bar]
    else if text != "" then Interleave(text[..|text| - 1], bars) + [Char(text[|text| - 1])]
    else []
  }

  /** Symbols written down as markup. */
  function Render(symbols: seq<Symbol>): string {
    if symbols == [] then ""
    else (if symbols[0].Bar? then "\\_" else if symbols[0].c == '\\' then "\\\\" else [symbols[0].c])
         + Render(symbols[1..])
  }

  /** A text and its ranges as markup. */
  function Print(text: string, ranges: seq<Range>): string {
    Render(Interleave(text, Marks(ranges)))
  }

  lemma {:induction false} SymbolsOfRender(symbols: seq<Symbol>)
    ensures Symbols(Render(symbols)) == symbols
  {
    if symbols != [] {
      var s, rest := Render(symbols), Render(symbols[1..]);
      SymbolsOfRender(symbols[1..]);
      if symbols[0].Char? && symbols[0].c != '\\' {
        assert s[1..] == rest;
      } else {
        assert s[2..] == rest;
      }
    }
  }

  lemma {:induction false} BarsRise(symbols: seq<Symbol>)
    ensures Rising(BarsOf(symbols), |TextOf(symbols)|)
  {
    if symbols != [] { BarsRise(symbols[..|symbols| - 1]); }
  }

  /** Without the character at the end, all delimiters being before it. */
  lemma RisesBefore(bars: seq<nat>, n: nat)
    requires Rising(bars, n + 1) && (bars != [] ==> bars[|bars| - 1] <= n)
    ensures Rising(bars, n)
  {
    forall k | 0 <= k < |bars| ensures bars[k] <= n { RisesTo(bars, n + 1, k); }
  }

  lemma {:induction false} PartsOfInterleave(text: string, bars: seq<nat>)
    requires Rising(bars, |text|)
    ensures TextOf(Interleave(text, bars)) == text && BarsOf(Interleave(text, bars)) == bars
    decreases |text| + |bars|
  {
    if bars != [] && (text == "" || bars[|bars| - 1] == |text|) {
      var less := bars[..|bars| - 1];
      assert bars == less + [|text|];
      PartsOfInterleave(text, less);
      SymbolStep(Interleave(text, less), Bar);
    } else if text != "" {
      var less, c := text[..|text| - 1], text[|text| - 1];
      assert text == less + [c];
      RisesBefore(bars, |less|);
      PartsOfInterleave(less, bars);
      SymbolStep(Interleave(less, bars), Char(c));
    }
  }

  lemma {:induction false} RisesTo(bars: seq<nat>, n: nat, k: nat)
    requires Rising(bars, n) && k < |bars|
    ensures bars[k] <= bars[|bars| - 1]
    decreases |bars| - k
  {
    if k < |bars| - 1 { RisesTo(bars, n, k + 1); }
  }

  lemma InterleaveBar(text: string, bars: seq<nat>)
    ensures Interleave(text, bars + [|text|]) == Interleave(text, bars) + [Bar]
  {
    assert (bars + [|text|])[..|bars|] == bars;
  }

  lemma InterleaveChar(text: string, bars: seq<nat>, c: char)
    requires bars != [] ==> bars[|bars| - 1] <= |text|
    ensures Interleave(text + [c], bars) == Interleave(text, bars) + [Char(c)]
  {
    assert (text + [c])[..|text|] == text;
  }

  lemma {:induction false} InterleaveOfParts(symbols: seq<Symbol>)
    ensures Interleave(TextOf(symbols), BarsOf(symbols)) == symbols
  {
    if symbols != [] {
      var front, x := symbols[..|symbols| - 1], symbols[|symbols| - 1];
      assert symbols == front + [x];
      InterleaveOfParts(front);
      BarsRise(front);
      if x.Bar? {
        InterleaveBar(TextOf(front), BarsOf(front));
      } else {
        InterleaveChar(TextOf(front), BarsOf(front), x.c);
      }
    }
  }

  lemma MarksRise(ranges: seq<Range>, n: nat)
    requires Ordered(ranges, n)
    ensures Rising(Marks(ranges), n)
  {
    var bars := Marks(ranges);
    forall k | 0 <= k < |bars| - 1 ensures bars[k] <= bars[k + 1] {
      assert bars[k + 1] == if k % 2 == 1 then ranges[k / 2 + 1].start else ranges[k / 2].end;
    }
  }

  lemma PairsOfMarks(ranges: seq<Range>)
    ensures Pairs(Marks(ranges)) == ranges
  {
  }

  lemma MarksOfPairs(bars: seq<nat>)
    requires |bars| % 2 == 0
    ensures Marks(Pairs(bars)) == bars
  {
    forall k | 0 <= k < |bars| ensures Marks(Pairs(bars))[k] == bars[k] {
      assert k == if k % 2 == 0 then 2 * (k / 2) else 2 * (k / 2) + 1;
    }
  }

  /** Parsing undoes printing, for every text and all ranges that can be written down. */
  lemma ParseOfPrint(text: string, ranges: seq<Range>)
    requires Ordered(ranges, |text|)
    ensures Text(Print(text, ranges)) == text
    ensures Ranges(Print(text, ranges)) == ranges && Open(Print(text, ranges)) == None
  {
    MarksRise(ranges, |text|);
    SymbolsOfRender(Interleave(text, Marks(ranges)));
    PartsOfInterleave(text, Marks(ranges));
    PairsOfMarks(ranges);
  }

  /** Whatever the input, the ranges that are closed come out in order, disjoint and within the text. */
  lemma RangesAreOrdered(s: string)
    ensures Ordered(Ranges(s), |Text(s)|)
    ensures Open(s).Some? ==> Open(s).value <= |Text(s)|
    ensures forall k | 0 <= k < |Ranges(s)| :: Open(s).Some? ==> Ranges(s)[k].end <= Open(s).value
  {
    var bars := BarsOf(Symbols(s));
    BarsRise(Symbols(s));
    forall k | 0 <= k < |Ranges(s)| ensures bars[2 * k + 1] <= bars[|bars| - 1] { RisesTo(bars, |Text(s)|, 2 * k + 1); }
  }

  /** Markup without needless escapes: a backslash only before a backslash or an underscore. */
  predicate Canonical(s: string) {
    if s == "" then true
    else if s[0] != '\\' then Canonical(s[1..])
    else |s| > 1 && (s[1] == '\\' || s[1] == '_') && Canonical(s[2..])
  }

  /** Printing what was parsed shortens the markup, or gives it back, the latter just when it is canonical. */
  lemma {:induction false} RenderOfSymbols(s: string)
    ensures |Render(Symbols(s))| <= |s|
    ensures Render(Symbols(s)) == s <==> Canonical(s)
  {
    if s != "" && s[0] != '\\' {
      RenderOfSymbols(s[1..]);
      HeadAndTail([Char(s[0])], Symbols(s[1..]));
      assert s == [s[0]] + s[1..];
    } else if |s| > 1 {
      RenderOfSymbols(s[2..]);
      HeadAndTail([if s[1] == '_' then Bar else Char(s[1])], Symbols(s[2..]));
      assert s == s[..2] + s[2..];
    }
  }

  lemma HeadAndTail(x: seq<Symbol>, rest: seq<Symbol>)
    requires |x| == 1
    ensures Render(x + rest) == Render(x) + Render(rest)
  {
    assert (x + rest)[1..] == rest && x[1..] == [];
  }

  /** The exact inputs that printing gives back. */
  lemma PrintOfParse(s: string)
    ensures Print(Text(s), Ranges(s)) == s <==> Canonical(s) && Open(s) == None
  {
    var symbols := Symbols(s);
    if Open(s) == None {
      MarksOfPairs(BarsOf(symbols));
      InterleaveOfParts(symbols);
      RenderOfSymbols(s);
    } else {
      RangesAreOrdered(s);
      ParseOfPrint(Text(s), Ranges(s));
    }
  }

  /** The text needs no more room than the input, less two for each delimiter. */
  lemma TextFits(s: string)
    ensures |Text(s)| + 2 * |BarsOf(Symbols(s))| <= |s|
  {
    RenderedLength(Symbols(s));
    RenderOfSymbols(s);
  }

  lemma {:induction false} RenderedLength(symbols: seq<Symbol>)
    ensures |TextOf(symbols)| + 2 * |BarsOf(symbols)| <= |Render(symbols)|
  {
    if symbols != [] {
      var front, x := symbols[..|symbols| - 1], symbols[|symbols| - 1];
      RenderedLength(front);
      RenderAppend(front, x);
      assert symbols == front + [x];
    }
  }

  lemma {:induction false} RenderAppend(front: seq<Symbol>, x: Symbol)
    ensures Render(front + [x]) == Render(front) + Render([x])
  {
    if front == [] {
      assert front + [x] == [x];
    } else {
      RenderAppend(front[1..], x);
      assert (front + [x])[1..] == front[1..] + [x];
    }
  }

  // ----- what the marks mean

  function Chars(a: string): seq<Symbol> {
    seq(|a|, i requires 0 <= i < |a| => Char(a[i]))
  }

  /** Characters that are no backslashes stand for themselves. */
  lemma {:induction false} PlainSymbols(a: string, r: string)
    requires '\\' !in a
    ensures Symbols(a + r) == Chars(a) + Symbols(r)
  {
    if a == "" {
      assert a + r == r;
    } else {
      assert a[0] in a && forall c | c in a[1..] :: c in a;
      PlainSymbols(a[1..], r);
      assert (a + r)[1..] == a[1..] + r;
      assert Chars(a) == [Char(a[0])] + Chars(a[1..]);
      Associative([Char(a[0])], Chars(a[1..]), Symbols(r));
    }
  }

  lemma {:induction false} PlainParts(done: seq<Symbol>, a: string)
    ensures TextOf(done + Chars(a)) == TextOf(done) + a && BarsOf(done + Chars(a)) == BarsOf(done)
  {
    if a == "" {
      assert done + Chars(a) == done;
    } else {
      var b, x := a[..|a| - 1], a[|a| - 1];
      PlainParts(done, b);
      SymbolStep(done + Chars(b), Char(x));
      assert Chars(a) == Chars(b) + [Char(x)] && a == b + [x];
      Associative(done, Chars(b), [Char(x)]);
      Associative(TextOf(done), b, [x]);
    }
  }

  lemma MarkedSymbols(a: string, mark: string, symbol: Symbol, r: string)
    requires '\\' !in a && |mark| == 2 && mark[0] == '\\' && symbol == if mark[1] == '_' then Bar else Char(mark[1])
    ensures Symbols(a + (mark + r)) == Chars(a) + [symbol] + Symbols(r)
  {
    PlainSymbols(a, mark + r);
    assert (mark + r)[2..] == r;
    Associative(Chars(a), [symbol], Symbols(r));
  }

  lemma BarAtEnd(symbols: seq<Symbol>)
    ensures TextOf(symbols + [Bar]) == TextOf(symbols) && BarsOf(symbols + [Bar]) == BarsOf(symbols) + [|TextOf(symbols)|]
  {
    assert (symbols + [Bar])[..|symbols|] == symbols;
  }

  lemma BarBehind(done: seq<Symbol>, symbols: seq<Symbol>)
    ensures TextOf(done + (symbols + [Bar])) == TextOf(done + symbols)
    ensures BarsOf(done + (symbols + [Bar])) == BarsOf(done + symbols) + [|TextOf(done + symbols)|]
  {
    var all := done + symbols;
    assert done + (symbols + [Bar]) == all + [Bar];
    BarAtEnd(all);
  }

  lemma CharParts(done: seq<Symbol>, a: string, x: char)
    ensures TextOf(done + (Chars(a) + [Char(x)])) == TextOf(done) + a + [x]
    ensures BarsOf(done + (Chars(a) + [Char(x)])) == BarsOf(done)
  {
    Associative(done, Chars(a), [Char(x)]);
    PlainParts(done, a);
    SymbolStep(done + Chars(a), Char(x));
  }

  lemma LastSymbols(c: string)
    requires '\\' !in c
    ensures Symbols(c) == Chars(c)
  {
    PlainSymbols(c, "");
    assert c + "" == c && Chars(c) + [] == Chars(c);
  }

  lemma OverbarSymbols(a: string, b: string, c: string)
    requires '\\' !in a && '\\' !in b && '\\' !in c
    ensures Symbols(a + ("\\_" + (b + ("\\_" + c)))) == Chars(a) + [Bar] + (Chars(b) + [Bar]) + Chars(c)
  {
    MarkedSymbols(a, "\\_", Bar, b + ("\\_" + c));
    MarkedSymbols(b, "\\_", Bar, c);
    LastSymbols(c);
    Associative(Chars(a) + [Bar], Chars(b) + [Bar], Chars(c));
  }

  lemma OverbarParts(a: string, b: string, c: string)
    ensures TextOf(Chars(a) + [Bar] + (Chars(b) + [Bar]) + Chars(c)) == a + b + c
    ensures BarsOf(Chars(a) + [Bar] + (Chars(b) + [Bar]) + Chars(c)) == [|a|, |a| + |b|]
  {
    var first, second := Chars(a) + [Bar], Chars(b) + [Bar];
    PlainParts([], a);
    BarBehind([], Chars(a));
    assert [] + first == first;
    PlainParts(first, b);
    BarBehind(first, Chars(b));
    PlainParts(first + second, c);
  }

  /** An overbar over `b`: backslash and underscore before and behind it. */
  lemma OverbarOver(a: string, b: string, c: string)
    requires '\\' !in a && '\\' !in b && '\\' !in c
    ensures Text(a + ("\\_" + (b + ("\\_" + c)))) == a + b + c
    ensures Ranges(a + ("\\_" + (b + ("\\_" + c)))) == [Range(|a|, |a| + |b|)]
    ensures Open(a + ("\\_" + (b + ("\\_" + c)))) == None
  {
    OverbarSymbols(a, b, c);
    OverbarParts(a, b, c);
    assert Pairs([|a|, |a| + |b|]) == [Range(|a|, |a| + |b|)];
  }

  /** A backslash before any other character, itself too, stands for that character. */
  lemma EscapedCharacter(a: string, x: char, c: string)
    requires '\\' !in a && '\\' !in c && x != '_'
    ensures Text(a + (['\\', x] + c)) == a + [x] + c
    ensures Ranges(a + (['\\', x] + c)) == [] && Open(a + (['\\', x] + c)) == None
  {
    MarkedSymbols(a, ['\\', x], Char(x), c);
    LastSymbols(c);
    var first := Chars(a) + [Char(x)];
    assert [] + first == first;
    CharParts([], a, x);
    PlainParts(first, c);
  }
}
