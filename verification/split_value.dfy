/**
 How attribute_object of the ViewDraw converter rewrites the value of a split attribute: one
 pass over the characters, against cutting the value at its commas, rewriting every piece and
 joining the pieces again.
 */
module SplitValue {
  import NaturalOrder
  import opened Wrappers

  const SUFFIX := "-1.sch"

  /** The pieces between the commas; there is always one. */
  function Split(s: string): (pieces: seq<string>)
    ensures pieces != []
  {
    if s == "" then [""]
    else
      var rest := Split(s[1..]);
      if s[0] == ',' then [""] + rest else [[s[0]] + rest[0]] + rest[1..]
  }

  /** The pieces with commas between them. */
  function Join(pieces: seq<string>): string {
    if pieces == [] then ""
    else if |pieces| == 1 then pieces[0]
    else pieces[0] + "," + Join(pieces[1..])
  }

  /** What becomes of one character: parentheses go, dashes become underscores, letters small. */
  function CleanChar(c: char): string {
    if c == '(' || c == ')' then "" else if c == '-' then "_" else [NaturalOrder.Lower(c) as char]
  }

  function Clean(piece: string): string {
    if piece == "" then "" else CleanChar(piece[0]) + Clean(piece[1..])
  }

  /** The name of the schematic a piece stands for. */
  function FileName(piece: string): string {
    Clean(piece) + SUFFIX
  }

  function FileNames(pieces: seq<string>): seq<string> {
    seq(|pieces|, i requires 0 <= i < |pieces| => FileName(pieces[i]))
  }

  /** The value the attribute gets. */
  function Rewritten(value: string): string {
    Join(FileNames(Split(value)))
  }

  method ToLower(s: string) returns (lower: string)
    ensures |lower| == |s| && forall i | 0 <= i < |s| :: lower[i] == NaturalOrder.Lower(s[i]) as char
  {
    lower := "";
    for i := 0 to |s|
      invariant |lower| == i && forall k | 0 <= k < i :: lower[k] == NaturalOrder.Lower(s[k]) as char
    {
      lower := lower + [NaturalOrder.Lower(s[i]) as char];
    }
  }

  lemma FileNamesHead(piece: string, rest: seq<string>)
    ensures FileNames([piece] + rest) == [FileName(piece)] + FileNames(rest)
  {
    assert ([piece] + rest)[1..] == rest;
  }

  lemma JoinHead(h: string, x: string, rest: seq<string>)
    ensures Join([h + x] + rest) == h + Join([x] + rest)
  {
    assert ([h + x] + rest)[1..] == rest == ([x] + rest)[1..];
    assert h + (x + "," + Join(rest)) == h + x + "," + Join(rest);
  }

  /** A comma in front ends an empty piece. */
  lemma CommaStep(rest: string)
    ensures Rewritten("," + rest) == SUFFIX + "," + Rewritten(rest)
  {
    var pieces := Split(rest);
    assert ("," + rest)[1..] == rest && FileName("") == SUFFIX;
    assert FileNames([""] + pieces) == [SUFFIX] + FileNames(pieces);
    assert ([SUFFIX] + FileNames(pieces))[1..] == FileNames(pieces);
  }

  /** Any other character goes in front of the first piece. */
  lemma LetterStep(c: char, rest: string)
    requires c != ','
    ensures Rewritten([c] + rest) == CleanChar(c) + Rewritten(rest)
  {
    var pieces := Split(rest);
    var head, tail := [c] + pieces[0], FileNames(pieces[1..]);
    assert ([c] + rest)[1..] == rest && head[1..] == pieces[0];
    Associative(CleanChar(c), Clean(pieces[0]), SUFFIX);
    FileNamesHead(head, pieces[1..]);
    FileNamesHead(pieces[0], pieces[1..]);
    assert [pieces[0]] + pieces[1..] == pieces;
    JoinHead(CleanChar(c), FileName(pieces[0]), tail);
  }

  /** The loop body, for a character that is in small letters already. */
  method Emit(before: string, c: char, ghost original: char) returns (result: string)
    requires c == NaturalOrder.Lower(original) as char
    ensures result == before + if original == ',' then SUFFIX + "," else CleanChar(original)
  {
    result := before;
    if c != '(' && c != ')' {
      if c == '-' {
        result := result + "_";
      } else if c == ',' {
        result := result + SUFFIX + ",";
      } else {
        result := result + [c];
      }
    }
  }

  /** The loop: the whole value in small letters first, then character by character. */
  method Rewrite(value: string) returns (result: string)
    ensures result == Rewritten(value)
  {
    var text := ToLower(value);
    result := "";
    var i := 0;
    assert value[0..] == value;
    while i < |text|
      invariant i <= |value| == |text|
      invariant result + Rewritten(value[i..]) == Rewritten(value)
    {
      if value[i] == ',' { CommaStep(value[i + 1..]); } else { LetterStep(value[i], value[i + 1..]); }
      assert value[i..] == [value[i]] + value[i + 1..];
      Associative(result, if value[i] == ',' then SUFFIX + "," else CleanChar(value[i]), Rewritten(value[i + 1..]));
      result := Emit(result, text[i], value[i]);
      i := i + 1;
    }
    assert value[i..] == "";
    result := result + SUFFIX;
  }

  // ----- cutting and joining are inverse, so the pieces can be read off the result

  lemma {:induction false} JoinOfSplit(s: string)
    ensures Join(Split(s)) == s
  {
    if s != "" {
      JoinOfSplit(s[1..]);
      var rest := Split(s[1..]);
      if s[0] == ',' {
        assert ([""] + rest)[1..] == rest;
      } else {
        assert ([[s[0]] + rest[0]] + rest[1..])[1..] == rest[1..];
      }
    }
  }

  lemma {:induction false} SplitOfWord(s: string)
    requires ',' !in s
    ensures Split(s) == [s]
  {
    if s != "" {
      SplitOfWord(s[1..]);
      assert s[0] in s && [s[0]] + s[1..] == s;
    }
  }

  lemma {:induction false} SplitAtComma(s: string, t: string)
    requires ',' !in s
    ensures Split(s + "," + t) == [s] + Split(t)
  {
    var whole := s + "," + t;
    if s == "" {
      assert whole[1..] == t;
    } else {
      SplitAtComma(s[1..], t);
      assert s[0] in s && [s[0]] + s[1..] == s;
      assert whole[1..] == s[1..] + "," + t;
    }
  }

  lemma {:induction false} SplitOfJoin(pieces: seq<string>)
    requires pieces != [] && forall i | 0 <= i < |pieces| :: ',' !in pieces[i]
    ensures Split(Join(pieces)) == pieces
  {
    if |pieces| == 1 {
      SplitOfWord(pieces[0]);
    } else {
      SplitOfJoin(pieces[1..]);
      SplitAtComma(pieces[0], Join(pieces[1..]));
    }
  }

  lemma {:induction false} CleanHasNoComma(piece: string)
    requires ',' !in piece
    ensures ',' !in Clean(piece)
  {
    if piece != "" { CleanHasNoComma(piece[1..]); }
  }

  lemma {:induction false} SplitHasNoComma(s: string, i: nat)
    requires i < |Split(s)|
    ensures ',' !in Split(s)[i]
  {
    if s != "" {
      if s[0] == ',' {
        if i > 0 { SplitHasNoComma(s[1..], i - 1); }
      } else {
        SplitHasNoComma(s[1..], i);
      }
    }
  }

  /** The result names one schematic for every piece of the value, in order. */
  lemma PiecesOfRewritten(value: string)
    ensures Split(Rewritten(value)) == FileNames(Split(value))
  {
    var pieces := Split(value);
    forall i | 0 <= i < |pieces| ensures ',' !in FileName(pieces[i]) {
      SplitHasNoComma(value, i);
      CleanHasNoComma(pieces[i]);
    }
    SplitOfJoin(FileNames(pieces));
  }

  // ----- what becomes of a piece

  /** A piece is rewritten character by character. */
  lemma {:induction false} CleanInParts(a: string, b: string)
    ensures Clean(a + b) == Clean(a) + Clean(b)
  {
    if a == "" {
      assert a + b == b;
    } else {
      CleanInParts(a[1..], b);
      assert (a + b)[1..] == a[1..] + b;
      Associative(CleanChar(a[0]), Clean(a[1..]), Clean(b));
    }
  }

  /** Parentheses go, a dash becomes an underscore, a capital the small letter; everything else stays. */
  lemma CleanOne(c: char)
    ensures c == '(' || c == ')' ==> Clean([c]) == ""
    ensures c == '-' ==> Clean([c]) == "_"
    ensures 'A' <= c <= 'Z' ==> |Clean([c])| == 1 && Clean([c])[0] - 'a' == c - 'A'
    ensures !('A' <= c <= 'Z') && c != '(' && c != ')' && c != '-' ==> Clean([c]) == [c]
  {
    assert [c][1..] == "";
  }

  /** A value without commas is one piece, with the ending of a schematic. */
  lemma WordRewritten(a: string)
    requires ',' !in a
    ensures Rewritten(a) == Clean(a) + "-1.sch"
  {
    SplitOfWord(a);
    assert FileNames([a]) == [FileName(a)];
  }

  /** A comma stays between what is before it and what is behind. */
  lemma CommaRewritten(a: string, b: string)
    requires ',' !in a
    ensures Rewritten(a + "," + b) == Clean(a) + "-1.sch" + "," + Rewritten(b)
  {
    SplitAtComma(a, b);
    assert FileNames([a] + Split(b)) == [FileName(a)] + FileNames(Split(b));
    assert ([FileName(a)] + FileNames(Split(b)))[1..] == FileNames(Split(b));
  }
}
