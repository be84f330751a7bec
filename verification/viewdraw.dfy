/**
 The ViewDraw converter's attachment of attributes: handlers that print as they read and set
 global flags, against the document they are meant to write, a list of objects of which pins,
 nets, buses and components may own a block of texts.
 */
module ViewDraw {
  import opened Wrappers

  datatype Code = LineCode | CircleCode | PinCode | BoxCode | ArcCode | NetCode | BusCode | ComponentCode

  /** What a text names, which for some attributes depends on the object they belong to. */
  datatype Label = Plain | NetName | RefDes | PinName | PinType | PinSeq(n: nat) | PinNumber

  /** What the converter prints, a line or an object at a time. */
  datatype Token = Version | Object(code: Code) | Text(name: Label) | Open | Close

  predicate Attachable(code: Code) {
    code.PinCode? || code.NetCode? || code.BusCode? || code.ComponentCode?
  }

  // ----- the document

  /** An object with the texts it owns, if it owns a block of them; or a text on its own. */
  datatype Item = Item(code: Code, block: Option<seq<Label>>) | Words(name: Label)

  /** What has been converted: `owner` is the object that attributes would go to. */
  datatype Doc = Doc(done: seq<Item>, owner: Option<Item>, pins: nat) {
    ghost predicate Valid() {
      && (forall i | 0 <= i < |done| :: done[i].Item? && done[i].block.Some? ==> Attachable(done[i].code))
      && (owner.Some? ==> owner.value.Item? && Attachable(owner.value.code))
    }

    predicate Pending() { owner.Some? && owner.value.Item? && owner.value.block.None? }

    predicate Owns(code: Code) { owner.Some? && owner.value.Item? && owner.value.code == code }

    /** All items, the last one included. */
    function Items(): seq<Item> {
      done + if owner.Some? then [owner.value] else []
    }
  }

  function Texts(labels: seq<Label>): seq<Token> {
    seq(|labels|, i requires 0 <= i < |labels| => Text(labels[i]))
  }

  /** An item, and its block so far. */
  function Begun(item: Item): seq<Token> {
    match item
    case Words(name) => [Text(name)]
    case Item(code, None) => [Object(code)]
    case Item(code, Some(labels)) => [Object(code), Open] + Texts(labels)
  }

  function Whole(item: Item): seq<Token> {
    Begun(item) + if item.Item? && item.block.Some? then [Close] else []
  }

  function Flatten(items: seq<Item>): seq<Token> {
    if items == [] then [] else Flatten(items[..|items| - 1]) + Whole(items[|items| - 1])
  }

  /** A file of items. */
  function Print(items: seq<Item>): seq<Token> {
    [Version] + Flatten(items)
  }

  /** What has been printed of a document, the block of the last object being still open. */
  function PrintSoFar(doc: Doc): seq<Token> {
    Print(doc.done) + if doc.owner.Some? then Begun(doc.owner.value) else []
  }

  // ----- what a record means for the document

  /** What the text of an attached attribute begins with. */
  datatype Attribute = PinTypeOf(known: bool) | Numbered | Named

  /**
   The records, with what decides what is printed: `valid` is a visibility from 0 to 3,
   `killed` that the translation table drops the attribute. Records the converter skips, the
   bounding box and the nodes of a net print nothing. A malformed record ends the program,
   after `resets` tells whether the handler first resets the attributes.
   */
  datatype Record =
    | Skipped | Malformed(resets: bool)
    | Unattached(valid: bool, killed: bool)
    | Attached(valid: bool, attribute: Attribute, killed: bool, killedToo: bool)
    | LabelText | FreeText
    | Line(pairs: nat) | Pin(bubble: bool) | Box | Circle | Arc(flat: bool)
    | NetStart | Segment | Bus | Instance

  /** The last object can own no more. */
  function Release(doc: Doc): Doc {
    Doc(doc.Items(), None, doc.pins)
  }

  /** A block for the last object, if there is one that can own it. */
  function WithBlock(doc: Doc): Doc {
    if doc.Pending() then doc.(owner := Some(doc.owner.value.(block := Some([])))) else doc
  }

  /** A text for the owner, or on its own. */
  function WithText(doc: Doc, name: Label): Doc {
    if doc.owner.Some? && doc.owner.value.Item? && doc.owner.value.block.Some?
    then doc.(owner := Some(doc.owner.value.(block := Some(doc.owner.value.block.value + [name]))))
    else doc.(done := doc.done + [Words(name)])
  }

  function WithTexts(doc: Doc, labels: seq<Label>): Doc {
    if labels == [] then doc else WithText(WithTexts(doc, labels[..|labels| - 1]), labels[|labels| - 1])
  }

  function Plainly(code: Code): Item {
    Item(code, None)
  }

  function WithObjects(doc: Doc, code: Code, n: nat): Doc {
    doc.(done := doc.done + seq(n, _ => Plainly(code)))
  }

  /** An object that may own a block; pins are counted. */
  function WithOwner(doc: Doc, code: Code): Doc {
    Doc(doc.done, Some(Plainly(code)), doc.pins + if code.PinCode? then 1 else 0)
  }

  predicate IsShape(record: Record) {
    record.Line? || record.Box? || record.Circle? || record.Arc?
  }

  /** The objects of a record that own nothing. */
  function WithShape(doc: Doc, record: Record): Doc
    requires IsShape(record)
  {
    match record
    case Line(pairs) => WithObjects(doc, LineCode, if pairs > 0 then pairs - 1 else 0)
    case Box => WithObjects(doc, BoxCode, 1)
    case Circle => WithObjects(doc, CircleCode, 1)
    case Arc(flat) => if flat then WithObjects(doc, LineCode, 2) else WithObjects(doc, ArcCode, 1)
  }

  /** A label names what it is attached to. */
  function NameFor(doc: Doc): Label {
    if doc.Owns(NetCode) || doc.Owns(BusCode) then NetName
    else if doc.Owns(ComponentCode) then RefDes
    else if doc.Owns(PinCode) then PinName
    else Plain
  }

  /** The texts an attached attribute comes to. */
  function AttributeTexts(doc: Doc, attribute: Attribute, killed: bool, killedToo: bool): seq<Label> {
    if !doc.Owns(PinCode) || attribute.Named? then if killed then [] else [Plain]
    else if attribute.Numbered? then (if killed then [] else [PinSeq(doc.pins)]) + (if killedToo then [] else [PinNumber])
    else if killed || !attribute.known then [] else [PinType]
  }

  /** The program ends at this record. */
  predicate Fatal(doc: Doc, record: Record) {
    record.Malformed? || (record.Attached? && record.valid && record.attribute == PinTypeOf(false) && doc.Owns(PinCode))
  }

  /** The document after one more record. */
  function Next(doc: Doc, record: Record): Doc {
    match record
    case Skipped => doc
    case Malformed(resets) => if resets then Release(doc) else doc
    case Unattached(valid, killed) => WithTexts(Release(doc), if valid && !killed then [Plain] else [])
    case Attached(valid, attribute, killed, killedToo) =>
      if valid then WithTexts(WithBlock(doc), AttributeTexts(doc, attribute, killed, killedToo)) else doc
    case LabelText => WithTexts(WithBlock(doc), [NameFor(doc)])
    case FreeText => WithTexts(Release(doc), [Plain])
    case Pin(bubble) =>
      WithOwner(WithObjects(Release(doc), CircleCode, if bubble then 1 else 0), PinCode)
    case NetStart => Release(doc)
    case Segment => WithOwner(Release(doc), NetCode)
    case Bus => WithOwner(Release(doc), BusCode)
    case Instance => WithOwner(Release(doc), ComponentCode)
    case _ => WithShape(Release(doc), record)
  }

  function Meaning(records: seq<Record>): Doc {
    if records == [] then Doc([], None, 0) else Next(Meaning(records[..|records| - 1]), records[|records| - 1])
  }

  /** The program ends at the last of the first `n` records. */
  predicate EndsAt(records: seq<Record>, n: nat)
    requires n <= |records|
  {
    n > 0 && Fatal(Meaning(records[..n - 1]), records[n - 1])
  }

  /** It ends at none of them. */
  predicate Harmless(records: seq<Record>, n: nat)
    requires n <= |records|
  {
    forall k | 0 < k <= n :: !EndsAt(records, k)
  }

  // ----- the converter

  lemma FlattenStep(items: seq<Item>, item: Item)
    ensures Print(items + [item]) == Print(items) + Whole(item)
  {
    assert (items + [item])[..|items|] == items;
  }

  lemma ReleasePrinted(doc: Doc)
    requires doc.Valid()
    ensures Release(doc).Valid()
    ensures PrintSoFar(Release(doc)) == PrintSoFar(doc) + if doc.owner.Some? && !doc.Pending() then [Close] else []
  {
    if doc.owner.Some? {
      FlattenStep(doc.done, doc.owner.value);
      Associative(Print(doc.done), Begun(doc.owner.value), if doc.Pending() then [] else [Close]);
    } else {
      assert doc.done + [] == doc.done;
    }
  }

  lemma BlockPrinted(doc: Doc)
    requires doc.Valid()
    ensures WithBlock(doc).Valid() && !WithBlock(doc).Pending()
    ensures PrintSoFar(WithBlock(doc)) == PrintSoFar(doc) + if doc.Pending() then [Open] else []
  {
    assert Texts([]) == [];
  }

  /** One more text in the block of an item. */
  lemma BlockGrows(item: Item, name: Label, tokens: seq<Token>)
    requires item.Item? && item.block.Some?
    ensures tokens + Begun(item.(block := Some(item.block.value + [name]))) == tokens + Begun(item) + [Text(name)]
  {
    assert Texts(item.block.value + [name]) == Texts(item.block.value) + [Text(name)];
    Associative([Object(item.code), Open], Texts(item.block.value), [Text(name)]);
    Associative(tokens, Begun(item), [Text(name)]);
  }

  lemma TextPrinted(doc: Doc, name: Label)
    requires doc.Valid() && !doc.Pending()
    ensures WithText(doc, name).Valid() && !WithText(doc, name).Pending()
    ensures PrintSoFar(WithText(doc, name)) == PrintSoFar(doc) + [Text(name)]
  {
    if doc.owner.Some? {
      BlockGrows(doc.owner.value, name, Print(doc.done));
    } else {
      FlattenStep(doc.done, Words(name));
    }
  }

  lemma ObjectPrinted(doc: Doc, code: Code)
    requires doc.Valid() && doc.owner.None?
    ensures WithObjects(doc, code, 1).Valid()
    ensures PrintSoFar(WithObjects(doc, code, 1)) == PrintSoFar(doc) + [Object(code)]
  {
    FlattenStep(doc.done, Plainly(code));
    assert seq(1, _ => Plainly(code)) == [Plainly(code)];
  }

  lemma OneText(doc: Doc, name: Label)
    ensures WithTexts(doc, [name]) == WithText(doc, name)
  {
    assert [name][..0] == [];
  }

  /** One more object, and none. */
  lemma ObjectsStep(doc: Doc, code: Code, n: nat)
    ensures WithObjects(doc, code, 0) == doc
    ensures WithObjects(WithObjects(doc, code, n), code, 1) == WithObjects(doc, code, n + 1)
  {
    assert doc.done + seq(0, _ => Plainly(code)) == doc.done;
    assert doc.done + seq(n, _ => Plainly(code)) + seq(1, _ => Plainly(code)) == doc.done + seq(n + 1, _ => Plainly(code));
  }

  class Converter {
    var attachPending: bool
    var addAttributes: bool
    var pinAttributes: bool
    var netAttributes: bool
    var complexAttributes: bool
    var pinCount: nat
    var output: seq<Token>

    /** The flags stand for the owner of the document, the output is what is printed of it. */
    ghost predicate Writes(doc: Doc)
      reads this
    {
      doc.Valid() && FlagsFor(doc) && pinCount == doc.pins && output == PrintSoFar(doc)
    }

    ghost predicate FlagsFor(doc: Doc)
      reads `attachPending, `addAttributes, `pinAttributes, `netAttributes, `complexAttributes
    {
      && addAttributes == doc.owner.Some? && attachPending == doc.Pending()
      && pinAttributes == doc.Owns(PinCode) && complexAttributes == doc.Owns(ComponentCode)
      && netAttributes == (doc.Owns(NetCode) || doc.Owns(BusCode))
    }

    /** So attributes never go to two kinds of owner, and to none when no attributes are added. */
    lemma OneOwner(doc: Doc)
      requires Writes(doc)
      ensures !(pinAttributes && netAttributes) && !(pinAttributes && complexAttributes) && !(netAttributes && complexAttributes)
      ensures addAttributes <==> pinAttributes || netAttributes || complexAttributes
      ensures attachPending ==> addAttributes
    {
    }

    constructor ()
      ensures !attachPending && !addAttributes && !pinAttributes && !netAttributes && !complexAttributes
      ensures pinCount == 0 && output == []
    {
      attachPending, addAttributes, pinAttributes, netAttributes, complexAttributes := false, false, false, false, false;
      pinCount, output := 0, [];
    }

    method BeginAttach(ghost doc: Doc)
      requires Writes(doc)
      modifies `output, `attachPending
      ensures Writes(WithBlock(doc))
    {
      BlockPrinted(doc);
      if attachPending {
        output := output + [Open];
        attachPending := false;
      }
    }

    method EndAttach()
      modifies `output
      ensures output == old(output) + [Close]
    {
      output := output + [Close];
    }

    /** The block of the last object is closed, if one was opened. */
    method EndBlock(ghost doc: Doc)
      requires Writes(doc)
      modifies `output
      ensures output == PrintSoFar(Release(doc)) && Release(doc).Valid()
    {
      ReleasePrinted(doc);
      if addAttributes && !attachPending {
        EndAttach();
      }
    }

    method ResetAttributes(ghost doc: Doc)
      requires Writes(doc)
      modifies this
      ensures Writes(Release(doc))
    {
      EndBlock(doc);
      attachPending, addAttributes, pinAttributes, netAttributes, complexAttributes := false, false, false, false, false;
    }

    /** text_object. */
    method PrintText(name: Label, ghost doc: Doc)
      requires Writes(doc) && !attachPending
      modifies `output
      ensures Writes(WithText(doc, name))
    {
      TextPrinted(doc, name);
      output := output + [Text(name)];
    }

    /** attribute_object. */
    method PrintAttribute(name: Label, killed: bool, ghost doc: Doc)
      requires Writes(doc) && !attachPending
      modifies `output
      ensures Writes(WithTexts(doc, if killed then [] else [name]))
    {
      if killed { return; }
      OneText(doc, name);
      PrintText(name, doc);
    }

    method PrintObject(code: Code, ghost doc: Doc)
      requires Writes(doc) && doc.owner.None?
      modifies `output
      ensures Writes(WithObjects(doc, code, 1))
    {
      ObjectPrinted(doc, code);
      output := output + [Object(code)];
    }

    /** The end of the handlers of pins, nets, buses and components. */
    method PrintOwner(code: Code, ghost doc: Doc)
      requires Writes(doc) && doc.owner.None? && Attachable(code)
      modifies this
      ensures Writes(WithOwner(doc, code))
    {
      output := output + [Object(code)];
      addAttributes, attachPending := true, true;
      match code {
        case PinCode => pinAttributes, pinCount := true, pinCount + 1;
        case ComponentCode => complexAttributes := true;
        case NetCode => netAttributes := true;
        case BusCode => netAttributes := true;
      }
    }

    /** The end of do_line: a line object from each point to the next. */
    method PrintLines(pairs: nat, ghost doc: Doc)
      requires Writes(doc) && doc.owner.None?
      modifies `output
      ensures Writes(WithObjects(doc, LineCode, if pairs > 0 then pairs - 1 else 0))
    {
      var i := 1;
      ghost var now := doc;
      ObjectsStep(doc, LineCode, 0);
      while i < pairs
        invariant i == 1 || i <= pairs
        invariant now == WithObjects(doc, LineCode, i - 1) && Writes(now)
      {
        PrintObject(LineCode, now);
        ObjectsStep(doc, LineCode, i - 1);
        now := WithObjects(now, LineCode, 1);
        i := i + 1;
      }
    }

    /** do_attached_attribute, behind the visibility; true when an unknown pin type ends the program. */
    method Attach(attribute: Attribute, killed: bool, killedToo: bool, ghost doc: Doc) returns (exited: bool)
      requires Writes(doc)
      modifies `output, `attachPending
      ensures Writes(WithTexts(WithBlock(doc), AttributeTexts(doc, attribute, killed, killedToo)))
      ensures exited <==> attribute == PinTypeOf(false) && doc.Owns(PinCode)
    {
      exited := false;
      BeginAttach(doc);
      ghost var now := WithBlock(doc);
      if pinAttributes {
        if attribute.PinTypeOf? {
          if !attribute.known { return true; }
          PrintAttribute(PinType, killed, now);
          return;
        }
        if attribute.Numbered? {
          ghost var seqs, numbers := if killed then [] else [PinSeq(pinCount)], if killedToo then [] else [PinNumber];
          PrintAttribute(PinSeq(pinCount), killed, now);
          PrintAttribute(PinNumber, killedToo, WithTexts(now, seqs));
          WithTextsAppend(now, seqs, numbers);
          return;
        }
      }
      PrintAttribute(Plain, killed, now);
    }

    /** do_label. */
    method DoLabel(ghost doc: Doc)
      requires Writes(doc)
      modifies `output, `attachPending
      ensures Writes(Next(doc, LabelText))
    {
      var name := if netAttributes then NetName
                   else if complexAttributes then RefDes
                   else if pinAttributes then PinName else Plain;
      OneText(WithBlock(doc), name);
      BeginAttach(doc);
      PrintText(name, WithBlock(doc));
    }

    /** A small circle in front of a pin of negative polarity. */
    method PrintBubble(bubble: bool, ghost doc: Doc)
      requires Writes(doc) && doc.owner.None?
      modifies `output
      ensures Writes(WithObjects(doc, CircleCode, if bubble then 1 else 0))
    {
      ObjectsStep(doc, CircleCode, 0);
      if bubble {
        PrintObject(CircleCode, doc);
      }
    }

    /** do_pin. */
    method DoPin(bubble: bool, ghost doc: Doc)
      requires Writes(doc)
      modifies this
      ensures Writes(Next(doc, Pin(bubble)))
    {
      ghost var bubbled := WithObjects(Release(doc), CircleCode, if bubble then 1 else 0);
      ResetAttributes(doc);
      PrintBubble(bubble, Release(doc));
      PrintOwner(PinCode, bubbled);
      assert Next(doc, Pin(bubble)) == WithOwner(bubbled, PinCode);
    }

    /** The end of do_arc: an arc whose points lie on a line becomes two lines. */
    method PrintArc(flat: bool, ghost doc: Doc)
      requires Writes(doc) && doc.owner.None?
      modifies `output
      ensures Writes(if flat then WithObjects(doc, LineCode, 2) else WithObjects(doc, ArcCode, 1))
    {
      if flat {
        ObjectsStep(doc, LineCode, 1);
        PrintObject(LineCode, doc);
        PrintObject(LineCode, WithObjects(doc, LineCode, 1));
      } else {
        PrintObject(ArcCode, doc);
      }
    }

    method PrintShape(record: Record, ghost doc: Doc)
      requires Writes(doc) && doc.owner.None? && IsShape(record)
      modifies `output
      ensures Writes(WithShape(doc, record))
    {
      match record {
        case Line(pairs) => PrintLines(pairs, doc);
        case Box => PrintObject(BoxCode, doc);
        case Circle => PrintObject(CircleCode, doc);
        case Arc(flat) => PrintArc(flat, doc);
      }
    }

    /** The handlers that print objects and no attributes. */
    method DoShape(record: Record, ghost doc: Doc)
      requires Writes(doc) && IsShape(record)
      modifies this
      ensures Writes(WithShape(Release(doc), record))
    {
      ResetAttributes(doc);
      PrintShape(record, Release(doc));
    }

    /** The handlers that print one object to which attributes may be attached. */
    method DoOwner(record: Record, ghost doc: Doc)
      requires Writes(doc) && (record.Segment? || record.Bus? || record.Instance?)
      modifies this
      ensures Writes(Next(doc, record))
    {
      ResetAttributes(doc);
      PrintOwner(if record.Segment? then NetCode else if record.Bus? then BusCode else ComponentCode, Release(doc));
    }

    /** The handlers of texts that are not attached. */
    method DoText(printed: bool, ghost doc: Doc)
      requires Writes(doc)
      modifies this
      ensures Writes(WithTexts(Release(doc), if printed then [Plain] else []))
    {
      ResetAttributes(doc);
      PrintAttribute(Plain, !printed, Release(doc));
    }

    /** One turn of the dispatch in convert_file. */
    method Convert(record: Record, ghost doc: Doc) returns (exited: bool)
      requires Writes(doc)
      modifies this
      ensures Writes(Next(doc, record)) && (exited <==> Fatal(doc, record))
      ensures exited <==> record.Malformed?
                          || (record.Attached? && record.valid && record.attribute == PinTypeOf(false) && old(pinAttributes))
    {
      exited := false;
      match record {
        case Skipped =>
        case Malformed(resets) => if resets { ResetAttributes(doc); } exited := true;
        case Unattached(valid, killed) => DoText(valid && !killed, doc);
        case Attached(valid, attribute, killed, killedToo) =>
          if valid { exited := Attach(attribute, killed, killedToo, doc); }
        case LabelText => DoLabel(doc);
        case FreeText => DoText(true, doc);
        case Pin(bubble) => DoPin(bubble, doc);
        case NetStart => ResetAttributes(doc);
        case Segment => DoOwner(record, doc);
        case Bus => DoOwner(record, doc);
        case Instance => DoOwner(record, doc);
        case _ => DoShape(record, doc);
      }
    }

    /** The loop of convert_file. */
    method ConvertRecords(records: seq<Record>) returns (n: nat, exited: bool)
      requires Writes(Meaning([]))
      modifies this
      ensures n <= |records| && Writes(Meaning(records[..n]))
      ensures exited == EndsAt(records, n) && (!exited ==> n == |records| && Harmless(records, n))
    {
      n, exited := 0, false;
      while n < |records| && !exited
        invariant n <= |records| && Writes(Meaning(records[..n]))
        invariant exited == EndsAt(records, n)
        invariant !exited ==> Harmless(records, n)
        decreases |records| - n, !exited
      {
        assert records[..n + 1][..n] == records[..n];
        exited := Convert(records[n], Meaning(records[..n]));
        n := n + 1;
      }
    }

    /**
     convert_file: `n` records are handled. When no record ends the program, the output is the
     whole document; otherwise it is what is printed of it so far.
     */
    method ConvertFile(records: seq<Record>) returns (n: nat, exited: bool)
      requires !attachPending && !addAttributes && !pinAttributes && !netAttributes && !complexAttributes
      requires pinCount == 0 && output == []
      modifies this
      ensures n <= |records|
      ensures if exited then EndsAt(records, n) && output == PrintSoFar(Meaning(records[..n]))
              else n == |records| && Harmless(records, n) && output == Print(Meaning(records).Items())
    {
      output := output + [Version];
      assert Flatten([]) == [];
      ResetAttributes(Meaning([]));
      n, exited := ConvertRecords(records);
      if exited { return; }
      assert records[..n] == records;
      ResetAttributes(Meaning(records));
    }
  }

  lemma WithTextsAppend(doc: Doc, a: seq<Label>, b: seq<Label>)
    requires |b| <= 1
    ensures WithTexts(doc, a + b) == WithTexts(WithTexts(doc, a), b)
  {
    if b == [] {
      assert a + b == a;
    } else {
      assert (a + b)[..|a|] == a;
    }
  }
}
