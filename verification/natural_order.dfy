/**
 The comparison that sorts component, net and pin names: by position on the sheet first, then
 by text, where runs of digits count as numbers and case does not count. One character after
 two equal numbers is skipped unread; a number that ends the text is followed by nothing.
 */
module NaturalOrder {
  /** The fields of a STRING_LIST node that the order depends on. */
  datatype Item = Item(pos: int, data: string)

  predicate IsDigit(c: char) { '0' <= c <= '9' }

  /** tolower, in the C locale. */
  function Lower(c: char): int {
    if 'A' <= c <= 'Z' then c as int + 32 else c as int
  }

  /** How many digits `s` starts with. */
  function DigitRun(s: string): (n: nat)
    ensures n <= |s|
    ensures forall i | 0 <= i < n :: IsDigit(s[i])
    ensures n < |s| ==> !IsDigit(s[n])
    ensures s != [] && IsDigit(s[0]) ==> n > 0
  {
    if s != [] && IsDigit(s[0]) then 1 + DigitRun(s[1..]) else 0
  }

  function Number(digits: string): int {
    if digits == [] then 0
    else 10 * Number(digits[..|digits| - 1]) + (digits[|digits| - 1] as int - '0' as int)
  }

  /** atoi of a text that starts with a digit. */
  function Atoi(s: string): int {
    Number(s[..DigitRun(s)])
  }

  /** What is left behind a number: one character more than its digits is gone. */
  function AfterNumber(s: string): (r: string)
    requires s != [] && IsDigit(s[0])
    ensures |r| < |s|
  {
    var n := DigitRun(s) + 1;
    if n <= |s| then s[n..] else []
  }

  // ----- the order, on token sequences

  datatype Token = Num(value: int) | Letter(code: int)

  function Tokens(s: string): seq<Token>
    decreases |s|
  {
    if s == [] then []
    else if IsDigit(s[0]) then [Num(Atoi(s))] + Tokens(AfterNumber(s))
    else [Letter(Lower(s[0]))] + Tokens(s[1..])
  }

  function Sign(x: int): int {
    if x < 0 then -1 else if x > 0 then 1 else 0
  }

  /** A number stands among the letters where the digits stand. */
  function CompareTokens(a: Token, b: Token): (r: int)
    ensures -1 <= r <= 1
  {
    match (a, b)
    case (Num(x), Num(y)) => Sign(x - y)
    case (Letter(x), Letter(y)) => Sign(x - y)
    case (Num(_), Letter(y)) => if y < '0' as int then 1 else -1
    case (Letter(x), Num(_)) => if x < '0' as int then -1 else 1
  }

  function CompareSeqs(a: seq<Token>, b: seq<Token>): (r: int)
    ensures -1 <= r <= 1
  {
    if a == [] && b == [] then 0
    else if a == [] then -1
    else if b == [] then 1
    else if CompareTokens(a[0], b[0]) != 0 then CompareTokens(a[0], b[0])
    else CompareSeqs(a[1..], b[1..])
  }

  function Order(a: Item, b: Item): (r: int)
    ensures -1 <= r <= 1
  {
    if a.pos != b.pos then Sign(a.pos - b.pos) else CompareSeqs(Tokens(a.data), Tokens(b.data))
  }

  /** cmp. */
  method Cmp(al: Item, bl: Item) returns (r: int)
    ensures Sign(r) == Order(al, bl)
  {
    var a, b := al.data, bl.data;
    if al.pos != bl.pos { return al.pos - bl.pos; }
    while a != [] && b != []
      invariant CompareSeqs(Tokens(a), Tokens(b)) == CompareSeqs(Tokens(al.data), Tokens(bl.data))
      decreases |a|
    {
      if IsDigit(a[0]) && IsDigit(b[0]) {
        var ia, ib := Atoi(a), Atoi(b);
        if ia != ib { return ia - ib; }
        a := SkipDigits(a);
        b := SkipDigits(b);
      } else if Lower(a[0]) != Lower(b[0]) {
        return Lower(a[0]) - Lower(b[0]);
      }
      // a++ and b++, which behind a number that ends the text would leave it
      a := if a == [] then [] else a[1..];
      b := if b == [] then [] else b[1..];
    }
    if a != [] { return 1; }
    if b != [] { return -1; }
    return 0;
  }

  method SkipDigits(s: string) returns (r: string)
    ensures r == s[DigitRun(s)..]
  {
    r := s;
    while r != [] && IsDigit(r[0])
      invariant |r| <= |s| && r == s[|s| - |r|..]
      invariant DigitRun(s) == |s| - |r| + DigitRun(r)
      decreases |r|
    {
      r := r[1..];
    }
  }

  // ----- a total preorder

  lemma {:induction false} CompareReflexive(a: seq<Token>)
    ensures CompareSeqs(a, a) == 0
  {
    if a != [] { CompareReflexive(a[1..]); }
  }

  lemma {:induction false} CompareAntisymmetric(a: seq<Token>, b: seq<Token>)
    requires Plain(a) && Plain(b)
    ensures CompareSeqs(a, b) == -CompareSeqs(b, a)
  {
    if a != [] && b != [] { CompareAntisymmetric(a[1..], b[1..]); }
  }

  lemma {:induction false} CompareTransitive(a: seq<Token>, b: seq<Token>, c: seq<Token>)
    requires Plain(a) && Plain(b) && Plain(c)
    requires CompareSeqs(a, b) <= 0 && CompareSeqs(b, c) <= 0
    ensures CompareSeqs(a, c) <= 0
    ensures CompareSeqs(a, c) == 0 ==> CompareSeqs(a, b) == 0 && CompareSeqs(b, c) == 0
  {
    if a != [] && b != [] && c != [] && CompareTokens(a[0], b[0]) == 0 == CompareTokens(b[0], c[0]) {
      CompareTransitive(a[1..], b[1..], c[1..]);
    }
  }

  /** Letters are never digits. */
  predicate Plain(a: seq<Token>) {
    forall i | 0 <= i < |a| && a[i].Letter? :: a[i].code < '0' as int || '9' as int < a[i].code
  }

  lemma {:induction false} TokensArePlain(s: string)
    ensures Plain(Tokens(s))
    decreases |s|
  {
    if s != [] { TokensArePlain(if IsDigit(s[0]) then AfterNumber(s) else s[1..]); }
  }

  lemma OrderReflexive(a: Item)
    ensures Order(a, a) == 0
  {
    CompareReflexive(Tokens(a.data));
  }

  lemma OrderAntisymmetric(a: Item, b: Item)
    ensures Order(a, b) == -Order(b, a)
  {
    TokensArePlain(a.data);
    TokensArePlain(b.data);
    CompareAntisymmetric(Tokens(a.data), Tokens(b.data));
  }

  lemma OrderTransitive(a: Item, b: Item, c: Item)
    requires Order(a, b) <= 0 && Order(b, c) <= 0
    ensures Order(a, c) <= 0
    ensures Order(a, c) == 0 ==> Order(a, b) == 0 && Order(b, c) == 0
  {
    TokensArePlain(a.data);
    TokensArePlain(b.data);
    TokensArePlain(c.data);
    if a.pos == b.pos == c.pos {
      CompareTransitive(Tokens(a.data), Tokens(b.data), Tokens(c.data));
    }
  }

  /** Two items compare equal exactly when they have the same position and the same tokens. */
  lemma {:induction false} CompareZero(a: seq<Token>, b: seq<Token>)
    ensures CompareSeqs(a, b) == 0 <==> a == b
  {
    if a != [] && b != [] {
      CompareZero(a[1..], b[1..]);
      if CompareTokens(a[0], b[0]) == 0 && a[1..] == b[1..] {
        assert a == [a[0]] + a[1..] && b == [b[0]] + b[1..];
      }
      if a == b { CompareReflexive(a); }
    }
  }

  lemma OrderZero(a: Item, b: Item)
    ensures Order(a, b) == 0 <==> a.pos == b.pos && Tokens(a.data) == Tokens(b.data)
  {
    CompareZero(Tokens(a.data), Tokens(b.data));
  }

  // ----- the skipped character

  /** The tokens of the text if nothing were skipped. */
  function AllTokens(s: string): seq<Token>
    decreases |s|
  {
    if s == [] then []
    else if IsDigit(s[0]) then [Num(Atoi(s))] + AllTokens(s[DigitRun(s)..])
    else [Letter(Lower(s[0]))] + AllTokens(s[1..])
  }

  /** Somewhere a digit is followed by something else. */
  predicate NumberInside(s: string) {
    exists i :: 0 <= i < |s| - 1 && IsDigit(s[i]) && !IsDigit(s[i + 1])
  }

  /** How many characters cmp skips. */
  function Skipped(s: string): nat
    decreases |s|
  {
    if s == [] then 0
    else if IsDigit(s[0]) then (if DigitRun(s) < |s| then 1 else 0) + Skipped(AfterNumber(s))
    else Skipped(s[1..])
  }

  lemma {:induction false} SkippedTokens(s: string)
    ensures |AllTokens(s)| == |Tokens(s)| + Skipped(s)
    ensures Skipped(s) == 0 ==> AllTokens(s) == Tokens(s)
    decreases |s|
  {
    if s != [] {
      if IsDigit(s[0]) {
        var n := DigitRun(s);
        SkippedTokens(AfterNumber(s));
        if n < |s| { assert s[n..][1..] == AfterNumber(s); }
      } else {
        SkippedTokens(s[1..]);
      }
    }
  }

  lemma {:induction false} SkippedInside(s: string)
    ensures Skipped(s) == 0 <==> !NumberInside(s)
    decreases |s|
  {
    if s != [] {
      var n := DigitRun(s);
      if IsDigit(s[0]) {
        if n < |s| { assert IsDigit(s[n - 1]) && !IsDigit(s[n]); }
      } else {
        SkippedInside(s[1..]);
        assert forall i | 0 < i < |s| :: s[i] == s[1..][i - 1];
        if NumberInside(s) {
          var i :| 0 <= i < |s| - 1 && IsDigit(s[i]) && !IsDigit(s[i + 1]);
          assert IsDigit(s[1..][i - 1]) && !IsDigit(s[1..][i - 1 + 1]);
        }
        if NumberInside(s[1..]) {
          var i :| 0 <= i < |s[1..]| - 1 && IsDigit(s[1..][i]) && !IsDigit(s[1..][i + 1]);
          assert IsDigit(s[i + 1]) && !IsDigit(s[i + 1 + 1]);
        }
      }
    }
  }

  /** cmp reads all of a text exactly when no digit in it is followed by anything but digits. */
  lemma ReadsAllExactly(s: string)
    ensures AllTokens(s) == Tokens(s) <==> !NumberInside(s)
  {
    SkippedTokens(s);
    SkippedInside(s);
  }

  /** So names that differ only right behind a number are not told apart. */
  lemma SkippedCharacterExample()
    ensures Order(Item(0, "U1A"), Item(0, "U1B")) == 0
  {
    assert DigitRun("1A"[1..]) == 0 && DigitRun("1B"[1..]) == 0;
    assert "U1A"[1..] == "1A" && "U1B"[1..] == "1B";
    assert "1A"[..1] == "1" == "1B"[..1];
    assert AfterNumber("1A") == [] == AfterNumber("1B");
    assert Tokens("U1A") == Tokens("U1B");
    CompareReflexive(Tokens("U1A"));
  }
}
