/**
 The grammar of the converted files, as an automaton over what is printed, and what holds of
 every document the records can mean: it is in the grammar, and names its pins in order.
 */
module ViewDrawGrammar {
  import opened Wrappers
  import opened ViewDraw

  /** Where a reader of the file is: before the version, behind it or a plain object, behind an object that may own a block, in a block, or lost. */
  datatype Place = Start | Between | BehindOwner | Inside | Lost

  function Advance(place: Place, token: Token): Place {
    match token
    case Version => if place.Start? then Between else Lost
    case Object(code) =>
      if place.Between? || place.BehindOwner? then if Attachable(code) then BehindOwner else Between else Lost
    case Text(_) => if place.Inside? then Inside else if place.Between? || place.BehindOwner? then Between else Lost
    case Open => if place.BehindOwner? then Inside else Lost
    case Close => if place.Inside? then Between else Lost
  }

  function Scan(tokens: seq<Token>): Place {
    if tokens == [] then Start else Advance(Scan(tokens[..|tokens| - 1]), tokens[|tokens| - 1])
  }

  /** A version line, then objects; those that can own a block are followed by at most one, of texts. */
  predicate InGrammar(tokens: seq<Token>) {
    Scan(tokens).Between? || Scan(tokens).BehindOwner?
  }

  lemma {:induction false} ScanAppend(a: seq<Token>, b: seq<Token>)
    ensures Scan(a + b) == ScanFrom(Scan(a), b)
  {
    if b == [] {
      assert a + b == a;
    } else {
      ScanAppend(a, b[..|b| - 1]);
      assert (a + b)[..|a + b| - 1] == a + b[..|b| - 1];
    }
  }

  function ScanFrom(place: Place, tokens: seq<Token>): Place {
    if tokens == [] then place else Advance(ScanFrom(place, tokens[..|tokens| - 1]), tokens[|tokens| - 1])
  }

  lemma {:induction false} ScanTexts(names: seq<Label>)
    ensures ScanFrom(Inside, Texts(names)) == Inside
  {
    if names != [] {
      ScanTexts(names[..|names| - 1]);
      assert Texts(names)[..|names| - 1] == Texts(names[..|names| - 1]);
    }
  }

  predicate IsPlace(place: Place) {
    place.Between? || place.BehindOwner?
  }

  /** An item is read from any place between items, and leaves the reader at one, but for a block not yet closed. */
  lemma ScanBegun(tokens: seq<Token>, item: Item)
    requires IsPlace(Scan(tokens)) && (item.Item? && item.block.Some? ==> Attachable(item.code))
    ensures if item.Item? && item.block.Some? then Scan(tokens + Begun(item)) == Inside else IsPlace(Scan(tokens + Begun(item)))
  {
    match item
    case Words(name) =>
      assert (tokens + [Text(name)])[..|tokens|] == tokens;
    case Item(code, None) =>
      assert (tokens + [Object(code)])[..|tokens|] == tokens;
    case Item(code, Some(names)) =>
      assert (tokens + [Object(code)])[..|tokens|] == tokens;
      var inside := tokens + [Object(code), Open];
      assert inside[..|tokens| + 1] == tokens + [Object(code)];
      ScanAppend(inside, Texts(names));
      ScanTexts(names);
      assert tokens + Begun(item) == inside + Texts(names);
  }

  lemma ScanWhole(tokens: seq<Token>, item: Item)
    requires IsPlace(Scan(tokens)) && (item.Item? && item.block.Some? ==> Attachable(item.code))
    ensures IsPlace(Scan(tokens + Whole(item)))
  {
    ScanBegun(tokens, item);
    var begun := tokens + Begun(item);
    if item.Item? && item.block.Some? {
      assert (begun + [Close])[..|begun|] == begun;
      assert tokens + Whole(item) == begun + [Close];
    } else {
      assert tokens + Whole(item) == begun;
    }
  }

  lemma {:induction false} PrintInGrammar(items: seq<Item>)
    requires forall i | 0 <= i < |items| :: items[i].Item? && items[i].block.Some? ==> Attachable(items[i].code)
    ensures InGrammar(Print(items))
  {
    if items == [] {
      assert Print(items) == [Version] && [Version][..0] == [];
    } else {
      var front, last := items[..|items| - 1], items[|items| - 1];
      PrintInGrammar(front);
      ScanWhole(Print(front), last);
      assert items == front + [last];
      FlattenStep(front, last);
    }
  }

  lemma {:induction false} TextsKeepValid(doc: Doc, names: seq<Label>)
    requires doc.Valid() && !doc.Pending()
    ensures WithTexts(doc, names).Valid() && !WithTexts(doc, names).Pending()
  {
    if names != [] { TextsKeepValid(doc, names[..|names| - 1]); }
  }

  lemma {:induction false} MeaningIsValid(records: seq<Record>)
    ensures Meaning(records).Valid()
  {
    if records != [] {
      var doc, record := Meaning(records[..|records| - 1]), records[|records| - 1];
      MeaningIsValid(records[..|records| - 1]);
      TextsKeepValid(Release(doc), [Plain]);
      TextsKeepValid(Release(doc), []);
      TextsKeepValid(WithBlock(doc), [NameFor(doc)]);
      if record.Attached? {
        TextsKeepValid(WithBlock(doc), AttributeTexts(doc, record.attribute, record.killed, record.killedToo));
      }
    }
  }

  /** Every file that is converted to the end is in the grammar. */
  lemma ConvertedInGrammar(records: seq<Record>)
    ensures InGrammar(Print(Meaning(records).Items()))
  {
    MeaningIsValid(records);
    PrintInGrammar(Meaning(records).Items());
  }

  /** What has been printed when the program ends early lacks at most the brace that closes its last block. */
  lemma PrintedInGrammar(records: seq<Record>)
    ensures InGrammar(PrintSoFar(Meaning(records))) || InGrammar(PrintSoFar(Meaning(records)) + [Close])
  {
    var doc := Meaning(records);
    MeaningIsValid(records);
    PrintInGrammar(doc.done);
    if doc.owner.Some? {
      ScanBegun(Print(doc.done), doc.owner.value);
      var tokens := PrintSoFar(doc);
      assert (tokens + [Close])[..|tokens|] == tokens;
    } else {
      assert PrintSoFar(doc) == Print(doc.done);
    }
  }

  // ----- what the grammar says about braces

  function Braces(tokens: seq<Token>): int {
    if tokens == [] then 0
    else
      Braces(tokens[..|tokens| - 1])
      + match tokens[|tokens| - 1] case Open => 1 case Close => -1 case _ => 0
  }

  /** What the braces of a file keep to up to its first `n` tokens. */
  predicate BracesOk(tokens: seq<Token>, n: nat)
    requires n <= |tokens|
  {
    && 0 <= Braces(tokens[..n]) <= 1
    && (n < |tokens| && tokens[n] == Open ==> n > 0 && tokens[n - 1].Object? && Attachable(tokens[n - 1].code))
    && (n < |tokens| && Braces(tokens[..n]) == 1 ==> tokens[n].Text? || tokens[n].Close?)
  }

  lemma {:induction false} BracesFollowPlace(tokens: seq<Token>)
    requires Scan(tokens) != Lost
    ensures Braces(tokens) == if Scan(tokens).Inside? then 1 else 0
    ensures Scan(tokens) == BehindOwner ==> tokens != [] && tokens[|tokens| - 1].Object? && Attachable(tokens[|tokens| - 1].code)
  {
    if tokens != [] { BracesFollowPlace(tokens[..|tokens| - 1]); }
  }

  lemma {:induction false} NeverLostBefore(tokens: seq<Token>, n: nat)
    requires n <= |tokens| && Scan(tokens) != Lost
    ensures Scan(tokens[..n]) != Lost
    decreases |tokens| - n
  {
    if n == |tokens| {
      assert tokens[..n] == tokens;
    } else {
      NeverLostBefore(tokens, n + 1);
      assert tokens[..n + 1][..n] == tokens[..n];
    }
  }

  /** In the grammar braces balance, never nest, open right behind an object that may own them, and enclose texts only. */
  lemma GrammarBraces(tokens: seq<Token>, n: nat)
    requires InGrammar(tokens) && n <= |tokens|
    ensures BracesOk(tokens, n) && Braces(tokens) == 0
    ensures n < |tokens| && tokens[n] == Open ==>
              n > 0 && (tokens[n - 1] == Object(PinCode) || tokens[n - 1] == Object(NetCode)
                        || tokens[n - 1] == Object(BusCode) || tokens[n - 1] == Object(ComponentCode))
  {
    BracesFollowPlace(tokens);
    NeverLostBefore(tokens, n);
    BracesFollowPlace(tokens[..n]);
    if n < |tokens| {
      NeverLostBefore(tokens, n + 1);
      assert tokens[..n + 1][..n] == tokens[..n];
    }
  }

  // ----- pins are numbered in the order in which they are printed

  predicate IsPin(item: Item) {
    item.Item? && item.code.PinCode?
  }

  function PinsAmong(items: seq<Item>): nat {
    if items == [] then 0
    else PinsAmong(items[..|items| - 1]) + if IsPin(items[|items| - 1]) then 1 else 0
  }

  /** A pin number is owned by the pin with that number, and by nothing else. */
  predicate NumberedRight(items: seq<Item>, i: nat)
    requires i < |items|
  {
    match items[i]
    case Words(name) => !name.PinSeq?
    case Item(code, None) => true
    case Item(code, Some(names)) =>
      forall k | 0 <= k < |names| && names[k].PinSeq? :: IsPin(items[i]) && names[k].n == PinsAmong(items[..i + 1])
  }

  predicate PinsInOrder(doc: Doc) {
    doc.pins == PinsAmong(doc.Items()) && forall i | 0 <= i < |doc.Items()| :: NumberedRight(doc.Items(), i)
  }

  lemma ReleaseKeepsOrder(doc: Doc)
    requires PinsInOrder(doc)
    ensures PinsInOrder(Release(doc)) && Release(doc).Items() == doc.Items()
  {
    assert Release(doc).Items() == doc.Items();
  }

  /** An item at the end that is no pin, or the pin that comes next. */
  lemma AppendKeepsOrder(items: seq<Item>, item: Item)
    requires forall i | 0 <= i < |items| :: NumberedRight(items, i)
    requires item == Words(Plain) || (item.Item? && item.block.None?)
    ensures forall i | 0 <= i < |items| + 1 :: NumberedRight(items + [item], i)
    ensures PinsAmong(items + [item]) == PinsAmong(items) + if IsPin(item) then 1 else 0
  {
    var more := items + [item];
    assert more[..|items|] == items;
    forall i | 0 <= i < |items| + 1 ensures NumberedRight(more, i) {
      if i < |items| {
        assert NumberedRight(items, i);
        assert more[..i + 1] == items[..i + 1];
      }
    }
  }

  /** The block of the last item may grow by what is right for it. */
  lemma ReplaceKeepsOrder(front: seq<Item>, item: Item, more: Item)
    requires forall i | 0 <= i < |front| + 1 :: NumberedRight(front + [item], i)
    requires IsPin(item) == IsPin(more)
    requires NumberedRight(front + [more], |front|)
    ensures forall i | 0 <= i < |front| + 1 :: NumberedRight(front + [more], i)
    ensures PinsAmong(front + [more]) == PinsAmong(front + [item])
  {
    var a, b := front + [item], front + [more];
    assert a[..|front|] == front == b[..|front|];
    forall i | 0 <= i < |front| ensures NumberedRight(b, i) {
      assert NumberedRight(a, i);
      assert a[..i + 1] == b[..i + 1];
    }
  }

  lemma BlockKeepsOrder(doc: Doc)
    requires doc.Valid() && PinsInOrder(doc)
    ensures PinsInOrder(WithBlock(doc))
  {
    if doc.Pending() {
      ReplaceKeepsOrder(doc.done, doc.owner.value, WithBlock(doc).owner.value);
    }
  }

  lemma TextKeepsOrder(doc: Doc, name: Label)
    requires doc.Valid() && !doc.Pending() && PinsInOrder(doc)
    requires name.PinSeq? ==> doc.Owns(PinCode) && name.n == doc.pins
    requires doc.owner.None? ==> name == Plain
    ensures PinsInOrder(WithText(doc, name))
  {
    var next := WithText(doc, name);
    if doc.owner.Some? {
      var item, more := doc.owner.value, next.owner.value;
      var a, b := doc.done + [item], doc.done + [more];
      assert NumberedRight(a, |doc.done|);
      assert a[..|a|] == a && b[..|b|] == b && a[..|doc.done|] == b[..|doc.done|];
      assert PinsAmong(a) == PinsAmong(b);
      ReplaceKeepsOrder(doc.done, item, more);
    } else {
      assert doc.Items() == doc.done && next.Items() == doc.done + [Words(name)];
      AppendKeepsOrder(doc.done, Words(name));
    }
  }

  lemma {:induction false} TextsKeepOrder(doc: Doc, names: seq<Label>)
    requires doc.Valid() && !doc.Pending() && PinsInOrder(doc)
    requires forall k | 0 <= k < |names| :: names[k].PinSeq? ==> doc.Owns(PinCode) && names[k].n == doc.pins
    requires doc.owner.None? ==> forall k | 0 <= k < |names| :: names[k] == Plain
    ensures PinsInOrder(WithTexts(doc, names))
    ensures forall code :: WithTexts(doc, names).Owns(code) == doc.Owns(code)
    ensures WithTexts(doc, names).pins == doc.pins && (WithTexts(doc, names).owner.None? <==> doc.owner.None?)
  {
    if names != [] {
      var front := names[..|names| - 1];
      TextsKeepOrder(doc, front);
      TextsKeepValid(doc, front);
      TextKeepsOrder(WithTexts(doc, front), names[|names| - 1]);
    }
  }

  lemma {:induction false} ObjectsKeepOrder(doc: Doc, code: Code, n: nat)
    requires doc.owner.None? && PinsInOrder(doc) && !code.PinCode?
    ensures PinsInOrder(WithObjects(doc, code, n))
  {
    if n == 0 {
      ObjectsStep(doc, code, 0);
    } else {
      ObjectsKeepOrder(doc, code, n - 1);
      ObjectsStep(doc, code, n - 1);
      var less := WithObjects(doc, code, n - 1);
      assert less.Items() == less.done;
      forall i | 0 <= i < |less.done| ensures NumberedRight(less.done, i) { assert NumberedRight(less.Items(), i); }
      AppendKeepsOrder(less.done, Plainly(code));
      assert seq(1, _ => Plainly(code)) == [Plainly(code)];
      assert WithObjects(doc, code, n).Items() == less.done + [Plainly(code)];
    }
  }

  lemma OwnerKeepsOrder(doc: Doc, code: Code)
    requires doc.owner.None? && PinsInOrder(doc)
    ensures PinsInOrder(WithOwner(doc, code))
  {
    assert doc.Items() == doc.done && WithOwner(doc, code).Items() == doc.done + [Plainly(code)];
    forall i | 0 <= i < |doc.done| ensures NumberedRight(doc.done, i) { assert NumberedRight(doc.Items(), i); }
    AppendKeepsOrder(doc.done, Plainly(code));
  }

  /** In every document the pin numbers are owned by the pins they count. */
  lemma {:induction false} MeaningPinsInOrder(records: seq<Record>)
    ensures PinsInOrder(Meaning(records))
  {
    if records != [] {
      var before := records[..|records| - 1];
      var doc, record := Meaning(before), records[|records| - 1];
      MeaningPinsInOrder(before);
      MeaningIsValid(before);
      ReleaseKeepsOrder(doc);
      NextKeepsOrder(doc, record);
    }
  }

  lemma AttachKeepsOrder(doc: Doc, names: seq<Label>)
    requires doc.Valid() && PinsInOrder(doc)
    requires forall k | 0 <= k < |names| :: names[k].PinSeq? ==> doc.Owns(PinCode) && names[k].n == doc.pins
    requires doc.owner.None? ==> forall k | 0 <= k < |names| :: names[k] == Plain
    ensures PinsInOrder(WithTexts(WithBlock(doc), names))
  {
    BlockKeepsOrder(doc);
    TextsKeepOrder(WithBlock(doc), names);
  }

  lemma PinKeepsOrder(doc: Doc, bubble: bool)
    requires doc.owner.None? && PinsInOrder(doc)
    ensures PinsInOrder(WithOwner(WithObjects(doc, CircleCode, if bubble then 1 else 0), PinCode))
  {
    ObjectsKeepOrder(doc, CircleCode, if bubble then 1 else 0);
    OwnerKeepsOrder(WithObjects(doc, CircleCode, if bubble then 1 else 0), PinCode);
  }

  lemma NextKeepsOrder(doc: Doc, record: Record)
    requires doc.Valid() && PinsInOrder(doc)
    ensures PinsInOrder(Next(doc, record))
  {
    var free := Release(doc);
    ReleaseKeepsOrder(doc);
    match record
    case Unattached(valid, killed) => TextsKeepOrder(free, if valid && !killed then [Plain] else []);
    case Attached(valid, attribute, killed, killedToo) =>
      if valid { AttachKeepsOrder(doc, AttributeTexts(doc, attribute, killed, killedToo)); }
    case LabelText => AttachKeepsOrder(doc, [NameFor(doc)]);
    case FreeText => TextsKeepOrder(free, [Plain]);
    case Pin(bubble) => PinKeepsOrder(free, bubble);
    case Segment => OwnerKeepsOrder(free, NetCode);
    case Bus => OwnerKeepsOrder(free, BusCode);
    case Instance => OwnerKeepsOrder(free, ComponentCode);
    case _ => ShapeKeepsOrder(doc, record);
  }

  lemma ShapeKeepsOrder(doc: Doc, record: Record)
    requires PinsInOrder(doc)
    requires record.Line? || record.Box? || record.Circle? || record.Arc? || record.Skipped? || record.Malformed? || record.NetStart?
    ensures PinsInOrder(Next(doc, record))
  {
    var free := Release(doc);
    ReleaseKeepsOrder(doc);
    match record
    case Line(pairs) => ObjectsKeepOrder(free, LineCode, if pairs > 0 then pairs - 1 else 0);
    case Box => ObjectsKeepOrder(free, BoxCode, 1);
    case Circle => ObjectsKeepOrder(free, CircleCode, 1);
    case Arc(flat) => ObjectsKeepOrder(free, if flat then LineCode else ArcCode, if flat then 2 else 1);
    case _ =>
  }
}
