/**
 What a converted document holds, record by record: which objects a record draws, and which
 name a text gets, by the object it is attached to.
 */
module ViewDrawLaws {
  import opened Wrappers
  import opened ViewDraw
  import opened ViewDrawGrammar

  // ----- names go with the object that owns them

  /** Nets and buses have net names, components designators, pins everything that has to do with pins. */
  predicate NameSuits(code: Code, name: Label) {
    match name
    case Plain => true
    case NetName => code == NetCode || code == BusCode
    case RefDes => code == ComponentCode
    case _ => code == PinCode
  }

  predicate NamedRight(item: Item) {
    match item
    case Words(name) => name == Plain
    case Item(code, None) => true
    case Item(code, Some(names)) => forall k | 0 <= k < |names| :: NameSuits(code, names[k])
  }

  ghost predicate AllNamedRight(doc: Doc) {
    (forall i | 0 <= i < |doc.done| :: NamedRight(doc.done[i])) && (doc.owner.Some? ==> NamedRight(doc.owner.value))
  }

  lemma {:induction false} TextsSuit(doc: Doc, names: seq<Label>)
    requires doc.Valid() && !doc.Pending() && AllNamedRight(doc)
    requires forall k | 0 <= k < |names| :: if doc.owner.Some? then NameSuits(doc.owner.value.code, names[k]) else names[k] == Plain
    ensures AllNamedRight(WithTexts(doc, names))
    ensures WithTexts(doc, names).owner.Some? <==> doc.owner.Some?
    ensures doc.owner.Some? ==> WithTexts(doc, names).owner.value.Item? && WithTexts(doc, names).owner.value.code == doc.owner.value.code
  {
    if names != [] {
      var front := names[..|names| - 1];
      TextsSuit(doc, front);
      TextsKeepValid(doc, front);
    }
  }

  lemma BlockSuits(doc: Doc)
    requires doc.Valid() && AllNamedRight(doc)
    ensures AllNamedRight(WithBlock(doc)) && WithBlock(doc).Valid() && !WithBlock(doc).Pending()
    ensures WithBlock(doc).owner.Some? <==> doc.owner.Some?
    ensures doc.owner.Some? ==> WithBlock(doc).owner.value.Item? && WithBlock(doc).owner.value.code == doc.owner.value.code
  {
  }

  lemma ObjectsSuit(doc: Doc, code: Code, n: nat)
    requires AllNamedRight(doc) && doc.owner.None?
    ensures AllNamedRight(WithObjects(doc, code, n)) && AllNamedRight(WithOwner(WithObjects(doc, code, n), PinCode))
  {
  }

  lemma ReleaseSuits(doc: Doc)
    requires doc.Valid() && AllNamedRight(doc)
    ensures AllNamedRight(Release(doc)) && Release(doc).Valid() && Release(doc).owner.None?
  {
    ReleasePrinted(doc);
  }

  lemma NextSuits(doc: Doc, record: Record)
    requires doc.Valid() && AllNamedRight(doc)
    ensures AllNamedRight(Next(doc, record))
  {
    var free := Release(doc);
    ReleaseSuits(doc);
    match record
    case Unattached(valid, killed) => TextsSuit(free, if valid && !killed then [Plain] else []);
    case FreeText => TextsSuit(free, [Plain]);
    case Attached(valid, attribute, killed, killedToo) =>
      BlockSuits(doc);
      if valid { TextsSuit(WithBlock(doc), AttributeTexts(doc, attribute, killed, killedToo)); }
    case LabelText =>
      BlockSuits(doc);
      TextsSuit(WithBlock(doc), [NameFor(doc)]);
    case Pin(bubble) => ObjectsSuit(free, CircleCode, if bubble then 1 else 0);
    case _ =>
  }

  lemma {:induction false} MeaningSuits(records: seq<Record>)
    ensures AllNamedRight(Meaning(records))
  {
    if records != [] {
      var before := records[..|records| - 1];
      MeaningSuits(before);
      MeaningIsValid(before);
      NextSuits(Meaning(before), records[|records| - 1]);
    }
  }

  /** Whatever the records: a text says it names a net, a component or something of a pin only in the block of one. */
  lemma NamesSuitOwners(records: seq<Record>, i: nat, k: nat)
    requires i < |Meaning(records).Items()|
    ensures match Meaning(records).Items()[i]
            case Words(name) => name == Plain
            case Item(_, None) => true
            case Item(code, Some(names)) =>
              k < |names| ==>
                && (names[k] == NetName ==> code == NetCode || code == BusCode)
                && (names[k] == RefDes ==> code == ComponentCode)
                && (names[k] == PinName || names[k] == PinType || names[k] == PinNumber || names[k].PinSeq? ==> code == PinCode)
  {
    MeaningSuits(records);
    var doc := Meaning(records);
    assert i < |doc.done| ==> NamedRight(doc.done[i]);
  }

  // ----- what one record adds

  /** The texts of a block, none if there is none yet. */
  function InBlock(block: Option<seq<Label>>): seq<Label> {
    if block.None? then [] else block.value
  }

  /** A label is the name of the net, the bus, the component or the pin before it, or a text on its own. */
  lemma LabelNames(doc: Doc, block: Option<seq<Label>>)
    ensures doc.owner == Some(Item(NetCode, block)) ==>
              Next(doc, LabelText) == doc.(owner := Some(Item(NetCode, Some(InBlock(block) + [NetName]))))
    ensures doc.owner == Some(Item(BusCode, block)) ==>
              Next(doc, LabelText) == doc.(owner := Some(Item(BusCode, Some(InBlock(block) + [NetName]))))
    ensures doc.owner == Some(Item(ComponentCode, block)) ==>
              Next(doc, LabelText) == doc.(owner := Some(Item(ComponentCode, Some(InBlock(block) + [RefDes]))))
    ensures doc.owner == Some(Item(PinCode, block)) ==>
              Next(doc, LabelText) == doc.(owner := Some(Item(PinCode, Some(InBlock(block) + [PinName]))))
    ensures doc.owner == None ==> Next(doc, LabelText) == doc.(done := doc.done + [Words(Plain)])
  {
    OneText(WithBlock(doc), NameFor(doc));
  }

  lemma TwoTexts(doc: Doc, a: Label, b: Label)
    ensures WithTexts(doc, [a, b]) == WithText(WithText(doc, a), b)
  {
    OneText(doc, a);
    assert [a, b][..1] == [a];
  }

  /** An attribute of a pin is its type, its numbers, or as it stands; of anything else it is as it stands. */
  lemma AttributeNames(doc: Doc, code: Code, block: Option<seq<Label>>)
    requires doc.owner == Some(Item(code, block))
    ensures code == PinCode ==>
              && Next(doc, Attached(true, Numbered, false, false)) ==
                 doc.(owner := Some(Item(code, Some(InBlock(block) + [PinSeq(doc.pins), PinNumber]))))
              && Next(doc, Attached(true, PinTypeOf(true), false, false)) ==
                 doc.(owner := Some(Item(code, Some(InBlock(block) + [PinType]))))
    ensures code != PinCode ==> forall attribute: Attribute ::
              Next(doc, Attached(true, attribute, false, false)) == doc.(owner := Some(Item(code, Some(InBlock(block) + [Plain]))))
    ensures Next(doc, Attached(true, Named, false, false)) == doc.(owner := Some(Item(code, Some(InBlock(block) + [Plain]))))
    ensures forall attribute: Attribute :: Next(doc, Attached(true, attribute, true, true)) == doc.(owner := Some(Item(code, Some(InBlock(block)))))
    ensures forall attribute: Attribute, killed, killedToo :: Next(doc, Attached(false, attribute, killed, killedToo)) == doc
  {
    var open := WithBlock(doc);
    OneText(open, Plain);
    OneText(open, PinType);
    TwoTexts(open, PinSeq(doc.pins), PinNumber);
    assert [] + [PinSeq(doc.pins), PinNumber] == [PinSeq(doc.pins)] + [PinNumber] == [PinSeq(doc.pins), PinNumber];
    assert InBlock(block) + [PinSeq(doc.pins)] + [PinNumber] == InBlock(block) + [PinSeq(doc.pins), PinNumber];
  }

  lemma Repeated(doc: Doc, code: Code)
    ensures WithObjects(doc, code, 0).done == doc.done
    ensures WithObjects(doc, code, 1).done == doc.done + [Item(code, None)]
    ensures WithObjects(doc, code, 2).done == doc.done + [Item(code, None), Item(code, None)]
  {
  }

  /** The objects a record draws, behind all that came before. */
  lemma RecordDraws(doc: Doc)
    ensures Next(doc, Box) == Doc(doc.Items() + [Item(BoxCode, None)], None, doc.pins)
    ensures Next(doc, Circle) == Doc(doc.Items() + [Item(CircleCode, None)], None, doc.pins)
    ensures Next(doc, Arc(false)) == Doc(doc.Items() + [Item(ArcCode, None)], None, doc.pins)
    ensures Next(doc, Arc(true)) == Doc(doc.Items() + [Item(LineCode, None), Item(LineCode, None)], None, doc.pins)
    ensures Next(doc, Segment) == Doc(doc.Items(), Some(Item(NetCode, None)), doc.pins)
    ensures Next(doc, Bus) == Doc(doc.Items(), Some(Item(BusCode, None)), doc.pins)
    ensures Next(doc, Instance) == Doc(doc.Items(), Some(Item(ComponentCode, None)), doc.pins)
    ensures Next(doc, Pin(false)) == Doc(doc.Items(), Some(Item(PinCode, None)), doc.pins + 1)
    ensures Next(doc, Pin(true)) == Doc(doc.Items() + [Item(CircleCode, None)], Some(Item(PinCode, None)), doc.pins + 1)
    ensures Next(doc, NetStart) == Doc(doc.Items(), None, doc.pins) && Next(doc, Skipped) == doc
  {
    var free := Release(doc);
    Repeated(free, BoxCode);
    Repeated(free, CircleCode);
    Repeated(free, ArcCode);
    Repeated(free, LineCode);
  }

  /** A line through `pairs` points is drawn in one piece less; texts on their own stand alone. */
  lemma RecordWrites(doc: Doc, pairs: nat)
    ensures Next(doc, Line(pairs)) ==
            Doc(doc.Items() + seq(if pairs > 0 then pairs - 1 else 0, _ => Item(LineCode, None)), None, doc.pins)
    ensures Next(doc, FreeText) == Next(doc, Unattached(true, false)) == Doc(doc.Items() + [Words(Plain)], None, doc.pins)
    ensures Next(doc, Unattached(false, false)) == Next(doc, Unattached(true, true)) == Doc(doc.Items(), None, doc.pins)
  {
    var n: nat := if pairs > 0 then pairs - 1 else 0;
    assert seq(n, _ => Plainly(LineCode)) == seq(n, _ => Item(LineCode, None));
    OneText(Release(doc), Plain);
  }

  // ----- how a document is printed

  /** An object is one line; its block, if it owns one, follows in braces, a line for each text. */
  lemma ItemPrinted(items: seq<Item>, code: Code, names: seq<Label>, name: Label)
    ensures Print([]) == [Version]
    ensures Print(items + [Item(code, None)]) == Print(items) + [Object(code)]
    ensures Print(items + [Item(code, Some(names))]) == Print(items) + [Object(code), Open] + Texts(names) + [Close]
    ensures Print(items + [Words(name)]) == Print(items) + [Text(name)]
    ensures |Texts(names)| == |names| && forall i | 0 <= i < |names| :: Texts(names)[i] == Text(names[i])
  {
    FlattenStep(items, Item(code, None));
    FlattenStep(items, Words(name));
    FlattenStep(items, Item(code, Some(names)));
    Associative(Print(items), [Object(code), Open] + Texts(names), [Close]);
    Associative(Print(items), [Object(code), Open], Texts(names));
  }
}
