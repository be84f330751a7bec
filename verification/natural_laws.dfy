/**
 What the order of names is, in plain terms: positions first; numbers by their size, as their
 digits show it; letters by the alphabet, whatever their case; a beginning before what goes on.
 */
module NaturalLaws {
  import opened Wrappers
  import opened NaturalOrder

  /** A smaller position comes first, whatever the texts. */
  lemma PositionFirst(a: Item, b: Item)
    requires a.pos < b.pos
    ensures Order(a, b) < 0 < Order(b, a)
  {
  }

  // ----- texts that begin alike

  predicate DigitsOnly(s: string) {
    s != [] && forall i | 0 <= i < |s| :: '0' <= s[i] <= '9'
  }

  /** What follows such a text is read from its first character on. */
  predicate EndsOpen(w: string) {
    w == [] || !('0' <= w[|w| - 1] <= '9')
  }

  lemma {:induction false} DigitRunOfPrefix(w: string, r: string)
    requires EndsOpen(w) && w != []
    ensures DigitRun(w + r) == DigitRun(w) < |w|
  {
    if IsDigit(w[0]) {
      assert (w + r)[1..] == w[1..] + r;
      DigitRunOfPrefix(w[1..], r);
    }
  }

  lemma NumberInPrefix(w: string, r: string)
    requires EndsOpen(w) && w != [] && IsDigit(w[0])
    ensures Atoi(w + r) == Atoi(w) && AfterNumber(w + r) == AfterNumber(w) + r && EndsOpen(AfterNumber(w))
  {
    var n := DigitRun(w);
    DigitRunOfPrefix(w, r);
    assert (w + r)[..n] == w[..n];
    assert (w + r)[n + 1..] == w[n + 1..] + r;
  }

  lemma {:induction false} TokensOfPrefix(w: string, r: string)
    requires EndsOpen(w)
    ensures Tokens(w + r) == Tokens(w) + Tokens(r)
    decreases |w|
  {
    if w == [] {
      assert w + r == r;
    } else if IsDigit(w[0]) {
      NumberInPrefix(w, r);
      TokensOfPrefix(AfterNumber(w), r);
      Associative([Num(Atoi(w))], Tokens(AfterNumber(w)), Tokens(r));
    } else {
      assert (w + r)[1..] == w[1..] + r;
      TokensOfPrefix(w[1..], r);
      Associative([Letter(Lower(w[0]))], Tokens(w[1..]), Tokens(r));
    }
  }

  lemma {:induction false} CompareBehind(p: seq<Token>, a: seq<Token>, b: seq<Token>)
    ensures CompareSeqs(p + a, p + b) == CompareSeqs(a, b)
  {
    if p == [] {
      assert p + a == a && p + b == b;
    } else {
      assert (p + a)[1..] == p[1..] + a && (p + b)[1..] == p[1..] + b;
      CompareBehind(p[1..], a, b);
    }
  }

  /** Texts that begin alike, not ending within a number, compare as what follows. */
  lemma OrderBehind(pos: int, w: string, a: string, b: string)
    requires EndsOpen(w)
    ensures Order(Item(pos, w + a), Item(pos, w + b)) == Order(Item(pos, a), Item(pos, b))
  {
    TokensOfPrefix(w, a);
    TokensOfPrefix(w, b);
    CompareBehind(Tokens(w), Tokens(a), Tokens(b));
  }

  /** A text comes before every text that goes on behind it. */
  lemma BeginningFirst(pos: int, w: string, r: string)
    requires EndsOpen(w) && r != []
    ensures Order(Item(pos, w), Item(pos, w + r)) < 0
  {
    OrderBehind(pos, w, [], r);
    assert w + [] == w;
  }

  // ----- numbers

  function Power(n: nat): nat {
    if n == 0 then 1 else 10 * Power(n - 1)
  }

  lemma {:induction false} PowerGrows(m: nat, n: nat)
    requires m <= n
    ensures Power(m) <= Power(n)
    decreases n
  {
    if m < n { PowerGrows(m, n - 1); }
  }

  lemma {:induction false} NumberFits(s: string)
    requires DigitsOnly(s)
    ensures 0 <= Number(s) < Power(|s|)
    ensures s[0] != '0' ==> Power(|s| - 1) <= Number(s)
  {
    if |s| > 1 {
      NumberFits(s[..|s| - 1]);
    } else {
      assert s[..0] == [];
    }
  }

  /** `i` is where two digit texts of one length first differ. */
  predicate FirstDifference(x: string, y: string, i: nat) {
    |x| == |y| && i < |x| && x[..i] == y[..i] && x[i] != y[i]
  }

  lemma {:induction false} LaterDigitsWeighLess(x: string, y: string, i: nat)
    requires DigitsOnly(x) && DigitsOnly(y) && FirstDifference(x, y, i) && x[i] < y[i]
    ensures Number(x) < Number(y)
  {
    var n := |x| - 1;
    if i == n {
      assert Number(x[..n]) == Number(y[..n]);
    } else {
      assert x[..n][..i] == x[..i] && y[..n][..i] == y[..i];
      LaterDigitsWeighLess(x[..n], y[..n], i);
    }
  }

  /** What follows does not go on with the number. */
  predicate StartsOpen(r: string) {
    r == [] || !('0' <= r[0] <= '9')
  }

  lemma {:induction false} RunOfNumber(x: string, r: string)
    requires DigitsOnly(x) && StartsOpen(r)
    ensures DigitRun(x + r) == |x|
  {
    assert (x + r)[1..] == x[1..] + r;
    if |x| > 1 {
      RunOfNumber(x[1..], r);
    } else {
      assert x[1..] + r == r;
    }
  }

  /** A number is one token, whatever follows; the next character is skipped. */
  lemma TokensOfNumber(x: string, r: string)
    requires DigitsOnly(x) && StartsOpen(r)
    ensures Tokens(x + r) == [Num(Number(x))] + Tokens(if r == [] then [] else r[1..])
  {
    RunOfNumber(x, r);
    assert (x + r)[..|x|] == x;
    if r != [] { assert (x + r)[|x| + 1..] == r[1..]; }
  }

  lemma NumberDecides(pos: int, w: string, x: string, r: string, y: string, q: string)
    requires EndsOpen(w) && DigitsOnly(x) && StartsOpen(r) && DigitsOnly(y) && StartsOpen(q) && Number(x) < Number(y)
    ensures Order(Item(pos, w + (x + r)), Item(pos, w + (y + q))) < 0
  {
    OrderBehind(pos, w, x + r, y + q);
    TokensOfNumber(x, r);
    TokensOfNumber(y, q);
  }

  /** Without leading zeros the shorter of two numbers is the smaller, whatever its digits and whatever follows. */
  lemma ShorterNumberFirst(pos: int, w: string, x: string, r: string, y: string, q: string)
    requires EndsOpen(w) && DigitsOnly(x) && StartsOpen(r) && DigitsOnly(y) && StartsOpen(q)
    requires y[0] != '0' && |x| < |y|
    ensures Order(Item(pos, w + (x + r)), Item(pos, w + (y + q))) < 0
  {
    NumberFits(x);
    NumberFits(y);
    PowerGrows(|x|, |y| - 1);
    NumberDecides(pos, w, x, r, y, q);
  }

  /** Of two numbers of one length the one with the smaller first differing digit is the smaller. */
  lemma SmallerDigitFirst(pos: int, w: string, x: string, r: string, y: string, q: string, i: nat)
    requires EndsOpen(w) && DigitsOnly(x) && StartsOpen(r) && DigitsOnly(y) && StartsOpen(q)
    requires FirstDifference(x, y, i) && x[i] < y[i]
    ensures Order(Item(pos, w + (x + r)), Item(pos, w + (y + q))) < 0
  {
    LaterDigitsWeighLess(x, y, i);
    NumberDecides(pos, w, x, r, y, q);
  }

  lemma ZeroIsNoToken(x: string, r: string)
    requires DigitsOnly(x) && StartsOpen(r)
    ensures Tokens("0" + x + r) == Tokens(x + r)
  {
    TokensOfNumber(x, r);
    TokensOfNumber("0" + x, r);
    ZeroInFront(x);
  }

  /** Leading zeros do not count. */
  lemma LeadingZero(pos: int, w: string, x: string, r: string)
    requires EndsOpen(w) && DigitsOnly(x) && StartsOpen(r)
    ensures Order(Item(pos, w + (x + r)), Item(pos, w + ("0" + x + r))) == 0
  {
    OrderBehind(pos, w, x + r, "0" + x + r);
    ZeroIsNoToken(x, r);
    CompareReflexive(Tokens(x + r));
  }

  /** Behind equal numbers one character each is skipped, and what follows decides. */
  lemma SkippedBehindNumber(pos: int, w: string, x: string, c: char, u: string, d: char, v: string)
    requires EndsOpen(w) && DigitsOnly(x) && !('0' <= c <= '9') && !('0' <= d <= '9')
    ensures Order(Item(pos, w + (x + ([c] + u))), Item(pos, w + (x + ([d] + v)))) == Order(Item(pos, u), Item(pos, v))
  {
    OrderBehind(pos, w, x + ([c] + u), x + ([d] + v));
    TokensOfNumber(x, [c] + u);
    TokensOfNumber(x, [d] + v);
    assert ([c] + u)[1..] == u && ([d] + v)[1..] == v;
    CompareBehind([Num(Number(x))], Tokens(u), Tokens(v));
  }

  lemma {:induction false} ZeroInFront(x: string)
    ensures Number("0" + x) == Number(x)
  {
    var z := "0" + x;
    if x != [] {
      assert z[..|z| - 1] == "0" + x[..|x| - 1];
      ZeroInFront(x[..|x| - 1]);
    } else {
      assert z[..0] == [];
    }
  }

  // ----- letters

  predicate IsLetter(c: char) {
    'A' <= c <= 'Z' || 'a' <= c <= 'z'
  }

  /** The place of a letter in the alphabet. */
  function Place(c: char): int
    requires IsLetter(c)
  {
    if c <= 'Z' then c as int - 'A' as int else c as int - 'a' as int
  }

  /** Two characters that are the same, or one letter in two cases. */
  predicate SameLetter(c: char, d: char) {
    c == d || (IsLetter(c) && IsLetter(d) && Place(c) == Place(d))
  }

  predicate SameButForCase(x: string, y: string) {
    |x| == |y| && forall i | 0 <= i < |x| :: SameLetter(x[i], y[i])
  }

  lemma {:induction false} SameRun(x: string, y: string)
    requires SameButForCase(x, y)
    ensures DigitRun(x) == DigitRun(y) && x[..DigitRun(x)] == y[..DigitRun(x)]
  {
    if x != [] {
      assert SameLetter(x[0], y[0]);
      if IsDigit(x[0]) {
        SameRest(x, y, 1);
        SameRun(x[1..], y[1..]);
        assert x[..DigitRun(x)] == [x[0]] + x[1..][..DigitRun(x[1..])];
        assert y[..DigitRun(x)] == [y[0]] + y[1..][..DigitRun(x[1..])];
      }
    }
  }

  lemma SameFirst(x: string, y: string)
    requires SameButForCase(x, y) && x != []
    ensures IsDigit(x[0]) == IsDigit(y[0]) && Lower(x[0]) == Lower(y[0])
  {
    assert SameLetter(x[0], y[0]);
  }

  lemma SameNumber(x: string, y: string)
    requires SameButForCase(x, y) && x != [] && IsDigit(x[0])
    ensures IsDigit(y[0]) && Atoi(x) == Atoi(y) && SameButForCase(AfterNumber(x), AfterNumber(y))
  {
    SameFirst(x, y);
    SameRun(x, y);
    SameRest(x, y, DigitRun(x) + 1);
  }

  lemma {:induction false} SameTokens(x: string, y: string)
    requires SameButForCase(x, y)
    ensures Tokens(x) == Tokens(y)
    decreases |x|
  {
    if x != [] {
      SameFirst(x, y);
      if IsDigit(x[0]) {
        SameNumber(x, y);
        SameTokens(AfterNumber(x), AfterNumber(y));
      } else {
        SameRest(x, y, 1);
        SameTokens(x[1..], y[1..]);
      }
    }
  }

  lemma SameRest(x: string, y: string, n: nat)
    requires SameButForCase(x, y)
    ensures n <= |x| ==> SameButForCase(x[n..], y[n..])
  {
    if n <= |x| {
      forall i | 0 <= i < |x| - n ensures SameLetter(x[n..][i], y[n..][i]) { assert SameLetter(x[n + i], y[n + i]); }
    }
  }

  /** Case does not count. */
  lemma CaseDoesNotCount(pos: int, x: string, y: string)
    requires SameButForCase(x, y)
    ensures Order(Item(pos, x), Item(pos, y)) == 0
  {
    SameTokens(x, y);
    CompareReflexive(Tokens(x));
  }

  /** Where texts first differ in a letter, the alphabet decides, unless a number stands just before. */
  lemma AlphabetDecides(pos: int, w: string, c: char, u: string, d: char, v: string)
    requires EndsOpen(w) && IsLetter(c) && IsLetter(d) && Place(c) < Place(d)
    ensures Order(Item(pos, w + ([c] + u)), Item(pos, w + ([d] + v))) < 0
  {
    OrderBehind(pos, w, [c] + u, [d] + v);
    assert ([c] + u)[0] == c && ([d] + v)[0] == d;
  }

  /** A number comes before a letter. */
  lemma NumberBeforeLetter(pos: int, w: string, x: string, d: char, v: string)
    requires EndsOpen(w) && x != [] && '0' <= x[0] <= '9' && IsLetter(d)
    ensures Order(Item(pos, w + x), Item(pos, w + ([d] + v))) < 0
  {
    OrderBehind(pos, w, x, [d] + v);
    assert ([d] + v)[0] == d;
  }

  /** A letter against another character, a digit perhaps: the code of the small letter counts. */
  lemma SmallLetterDecides(pos: int, w: string, c: char, u: string, d: char, v: string)
    requires EndsOpen(w) && IsLetter(c) && !IsLetter(d)
    ensures Order(Item(pos, w + ([c] + u)), Item(pos, w + ([d] + v))) < 0 <==> 'a' as int + Place(c) < d as int
    ensures Order(Item(pos, w + ([c] + u)), Item(pos, w + ([d] + v))) > 0 <==> 'a' as int + Place(c) > d as int
  {
    OrderBehind(pos, w, [c] + u, [d] + v);
    assert ([c] + u)[0] == c && ([d] + v)[0] == d;
  }

  /** Any other two characters count by their codes. */
  lemma CodesDecide(pos: int, w: string, c: char, u: string, d: char, v: string)
    requires EndsOpen(w) && !IsLetter(c) && !IsLetter(d) && c < d
    requires !('0' <= c <= '9' && '0' <= d <= '9')
    ensures Order(Item(pos, w + ([c] + u)), Item(pos, w + ([d] + v))) < 0
  {
    OrderBehind(pos, w, [c] + u, [d] + v);
    assert ([c] + u)[0] == c && ([d] + v)[0] == d;
  }
}
