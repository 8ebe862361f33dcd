/** The Interest packet: its description, its encoding and its decoding (src/interest.cpp, src/selectors.cpp,
    src/name.cpp, src/key-locator.cpp). */
module InterestPackets {
  import opened Results
  import opened Octets
  import opened Tlv
  import opened NameComponents
  import opened Names
  import opened Interests
  import Enc = Encoding
  import Blocks
  import ExcludeMaps
  import Excludes

  const DEFAULT_INTEREST_LIFETIME: int := 4000

  type Element = Blocks.Element

  // ---- descriptions ----

  /** A place in a packet: the type that may stand there, and the field that does. */
  datatype Slot = Slot(typ: nat, field: Option<Enc.Field>)

  function Filled(slots: seq<Slot>): seq<Enc.Field>
  {
    if slots == [] then [] else Of(slots[0]) + Filled(slots[1..])
  }

  function Of(s: Slot): seq<Enc.Field>
  {
    if s.field.Some? then [s.field.value] else []
  }

  function NameFields(n: Name): seq<Enc.Field>
  {
    seq(|n|, i requires 0 <= i < |n| => Enc.Leaf(n[i].typ, n[i].value))
  }

  function NumberSlot(typ: nat, n: int): Slot
  {
    Slot(typ, if n >= 0 then Some(Enc.Number(typ, n)) else None)
  }

  function SelectorSlots(s: Selectors): seq<Slot>
  {
    [NumberSlot(MIN_SUFFIX_COMPONENTS, s.minSuffixComponents),
     NumberSlot(MAX_SUFFIX_COMPONENTS, s.maxSuffixComponents),
     Slot(KEY_LOCATOR, if s.publisher.Some? then Some(Enc.Raw(s.publisher.value)) else None),
     Slot(EXCLUDE, if s.exclude != [] then Some(Excludes.Description(s.exclude)) else None),
     NumberSlot(CHILD_SELECTOR, s.childSelector),
     Slot(MUST_BE_FRESH, if s.mustBeFresh then Some(Enc.Leaf(MUST_BE_FRESH, [])) else None)]
  }

  /** The negation of Selectors::empty. */
  predicate HasSelectors(s: Selectors)
  {
    s.minSuffixComponents >= 0 || s.maxSuffixComponents >= 0 || s.publisher.Some? || s.exclude != []
    || s.childSelector >= 0 || s.mustBeFresh
  }

  /** What Interest::wireEncode asks of its encoder, in packet order. */
  function InterestSlots(i: Interest): seq<Slot>
  {
    [Slot(NAME, Some(Enc.Nested(NAME, NameFields(i.name)))),
     Slot(SELECTORS, if HasSelectors(i.selectors) then Some(Enc.Nested(SELECTORS, Filled(SelectorSlots(i.selectors))))
                     else None),
     Slot(NONCE, Some(Enc.Raw(Enc.Wire(Enc.Leaf(NONCE, i.nonce))))),
     NumberSlot(INTEREST_LIFETIME, if i.lifetime == DEFAULT_INTEREST_LIFETIME then -1 else i.lifetime),
     Slot(DATA, if i.link.Some? then Some(Enc.Raw(i.link.value)) else None),
     Slot(SELECTED_DELEGATION,
          if i.link.Some? && i.selectedDelegation.Some? then
            Some(Enc.Number(SELECTED_DELEGATION, i.selectedDelegation.value))
          else None)]
  }

  function InterestDescription(i: Interest): Enc.Field
  {
    Enc.Nested(INTEREST, Filled(InterestSlots(i)))
  }

  // ---- decoding ----

  /** Block::find. */
  function Find(els: seq<Element>, typ: nat): (e: Option<Element>)
    ensures e.Some? ==> e.value in els && e.value.typ == typ
  {
    if els == [] then None
    else if els[0].typ == typ then Some(els[0])
    else Find(els[1..], typ)
  }

  function ValueOf(e: Element): seq<byte>
  {
    if e.value.Some? then e.value.value else []
  }

  /** Block::parse and elements; None when parse throws. */
  function Parsed(e: Element): Option<seq<Element>>
  {
    var scanned := Blocks.Scan(ValueOf(e));
    if scanned.error.Some? then None else Some(scanned.elements)
  }

  /** readNonNegativeInteger of the element of a type, None when it throws; `absent` when there is none. */
  function FindNumber(els: seq<Element>, typ: nat, absent: int): Option<int>
  {
    match Find(els, typ)
    case None => Some(absent)
    case Some(e) =>
      match ReadNonNegativeInteger(|ValueOf(e)|, ValueOf(e))
      case Integer(n) => Some(n)
      case _ => None
  }

  /** Name::wireDecode: elements of any type pass. */
  function DecodeName(e: Element): Option<seq<AnyComponent>>
  {
    match Parsed(e)
    case None => None
    case Some(els) =>
      Some(seq(|els|, k requires 0 <= k < |els| => Component(els[k].typ, ValueOf(els[k]))))
  }

  /** KeyLocator::wireDecode: Some(None) for one without content, which counts as absent. */
  function DecodePublisher(e: Element): Option<Option<seq<byte>>>
  {
    match Parsed(e)
    case None => None
    case Some(els) =>
      if els == [] then Some(None)
      else if els[0].typ == NAME && Parsed(els[0]).None? then None
      else Some(e.wire)
  }

  /** Selectors::wireDecode; numbers are narrowed to `int`. */
  function DecodeSelectors(e: Element): Option<Selectors>
  {
    match Parsed(e)
    case None => None
    case Some(els) =>
      var min := FindNumber(els, MIN_SUFFIX_COMPONENTS, -1);
      var max := FindNumber(els, MAX_SUFFIX_COMPONENTS, -1);
      var publisher := if Find(els, KEY_LOCATOR).Some? then DecodePublisher(Find(els, KEY_LOCATOR).value)
                       else Some(None);
      var exclude := if Find(els, EXCLUDE).Some? then Excludes.DecodeValue(ValueOf(Find(els, EXCLUDE).value))
                     else Excludes.Decoded([], None);
      var child := FindNumber(els, CHILD_SELECTOR, -1);
      if min.None? || max.None? || publisher.None? || exclude.error.Some? || child.None? then None
      else Some(Selectors(Int32(min.value), Int32(max.value), publisher.value, exclude.entries, Int32(child.value),
                          Find(els, MUST_BE_FRESH).Some?))
  }

  /** Link::countDelegationsFromWire. */
  function CountDelegations(link: Element): Option<nat>
  {
    match Parsed(link)
    case None => None
    case Some(els) =>
      if Find(els, CONTENT).None? || Parsed(Find(els, CONTENT).value).None? then None
      else Some(|Parsed(Find(els, CONTENT).value).value|)
  }

  /** The fields of an Interest after wireDecode; name components are not checked there. */
  datatype Packet = Packet(
    name: seq<AnyComponent>, selectors: Selectors, nonce: seq<byte>, lifetime: int,
    link: Option<seq<byte>>, selectedDelegation: Option<nat>)

  const NO_SELECTORS: Selectors := Selectors(-1, -1, None, [], -1, false)

  /** SelectedDelegation needs a link that has as many delegations. */
  function DecodeDelegation(els: seq<Element>): Option<Option<nat>>
  {
    match Find(els, SELECTED_DELEGATION)
    case None => Some(None)
    case Some(e) =>
      match ReadNonNegativeInteger(|ValueOf(e)|, ValueOf(e))
      case Integer(n) =>
        if Find(els, DATA).None? then None
        else
          var count := CountDelegations(Find(els, DATA).value);
          if count.Some? && n < count.value then Some(Some(n)) else None
      case _ => None
  }

  /** Interest::wireDecode of a whole packet; None when it throws. */
  function DecodeInterest(wire: seq<byte>): Option<Packet>
  {
    match Blocks.FromWhole(wire)
    case Err(_) => None
    case Ok(block) =>
      match Parsed(block)
      case None => None
      case Some(els) => if block.typ != INTEREST then None else DecodeFields(els)
  }

  function DecodeFields(els: seq<Element>): Option<Packet>
  {
    if Find(els, NAME).None? || Find(els, NONCE).None? then None
    else
      var name := DecodeName(Find(els, NAME).value);
      var selectors := if Find(els, SELECTORS).Some? then DecodeSelectors(Find(els, SELECTORS).value)
                       else Some(NO_SELECTORS);
      var lifetime := FindNumber(els, INTEREST_LIFETIME, DEFAULT_INTEREST_LIFETIME);
      var link := if Find(els, DATA).Some? then Find(els, DATA).value.wire else None;
      var delegation := DecodeDelegation(els);
      if name.None? || selectors.None? || lifetime.None? || delegation.None? then None
      else Some(Packet(name.value, selectors.value, ValueOf(Find(els, NONCE).value), Int64(lifetime.value), link,
                       delegation.value))
  }

  // ---- any description parses back ----

  function FieldValue(f: Enc.Field): seq<byte>
    requires !f.Raw?
  {
    match f
    case Leaf(_, value) => value
    case Number(_, n) => EncodeNonNegativeInteger(n)
    case Nested(_, fields) => Enc.WireAll(fields)
  }

  /** The element a field is expected to parse into. */
  ghost function Expected(f: Enc.Field): Result<Element, Blocks.Error>
  {
    if f.Raw? then Blocks.ReadElement(f.wire)
    else if f.typ > U32_MAX || |FieldValue(f)| > U64_MAX then Err(Blocks.TlvError)
    else Ok(Blocks.Element(f.typ, Some(FieldValue(f)), Some(Enc.Wire(f))))
  }

  /** Types and lengths fit, and encoded blocks hold one element. */
  ghost predicate Sound(f: Enc.Field)
  {
    Expected(f).Ok? && Expected(f).value.wire == Some(Enc.Wire(f))
  }

  /** Parsing what a template wrote returns its fields: same types and values, in order, none more. */
  lemma {:induction false} FieldsParseBack(fields: seq<Enc.Field>)
    requires forall f <- fields :: Sound(f)
    ensures var parsed := Blocks.Scan(Enc.WireAll(fields));
            && parsed.error.None? && |parsed.elements| == |fields|
            && forall i :: 0 <= i < |fields| ==> Ok(parsed.elements[i]) == Expected(fields[i])
  {
    hide Expected, Blocks.ReadElement;
    if fields != [] {
      var f, rest := fields[0], Enc.WireAll(fields[1..]);
      var all := Enc.WireAll(fields);
      FieldReads(f);
      Blocks.ReadElementIsLocal(Enc.Wire(f), rest);
      assert all == Enc.Wire(f) + rest && all[|Enc.Wire(f)|..] == rest;
      FieldsParseBack(fields[1..]);
    }
  }

  lemma FieldReads(f: Enc.Field)
    requires Sound(f)
    ensures Blocks.ReadElement(Enc.Wire(f)) == Expected(f)
  {
    if !f.Raw? {
      assert Enc.Wire(f) == Enc.Wire(Enc.Leaf(f.typ, FieldValue(f)));
      Blocks.WrittenElementReads(f.typ, FieldValue(f));
    }
  }

  // ---- slots are found again ----

  /** The field in a slot encodes one element of the type of the slot. */
  ghost predicate Fits(s: Slot)
  {
    s.field.Some? ==> Sound(s.field.value) && Expected(s.field.value).value.typ == s.typ
  }

  ghost predicate AllFit(slots: seq<Slot>)
  {
    && (forall s <- slots :: Fits(s))
    && (forall i, j :: 0 <= i < j < |slots| ==> slots[i].typ != slots[j].typ)
  }

  /** What parsing the filled slots gives. */
  ghost function Held(slots: seq<Slot>): seq<Element>
    requires AllFit(slots)
  {
    if slots == [] then []
    else
      var s := slots[0];
      assert s in slots;
      (if s.field.Some? then [Expected(s.field.value).value] else []) + Held(slots[1..])
  }

  lemma {:induction false} FilledIsSound(slots: seq<Slot>)
    requires AllFit(slots)
    ensures |Held(slots)| == |Filled(slots)|
    ensures forall k :: 0 <= k < |Filled(slots)| ==>
              Sound(Filled(slots)[k]) && Expected(Filled(slots)[k]) == Ok(Held(slots)[k])
  {
    hide Sound, Expected, AllFit;
    if slots != [] {
      TailFits(slots);
      FilledIsSound(slots[1..]);
      if slots[0].field.Some? {
        SlotIsOk(slots[0]);
      }
    }
  }

  lemma TailFits(slots: seq<Slot>)
    requires AllFit(slots) && slots != []
    ensures Fits(slots[0]) && AllFit(slots[1..])
  {
    hide Fits;
    assert slots[0] in slots;
  }

  lemma SlotIsOk(s: Slot)
    requires Fits(s) && s.field.Some?
    ensures Sound(s.field.value) && Expected(s.field.value).Ok?
  {
  }

  /** Parsing a description gives the elements of its filled slots, in order. */
  lemma SlotsParseBack(slots: seq<Slot>)
    requires AllFit(slots)
    ensures Blocks.Scan(Enc.WireAll(Filled(slots))) == Blocks.Scanned(Held(slots), None)
  {
    hide Expected, Sound;
    FilledIsSound(slots);
    FieldsParseBack(Filled(slots));
    var elements := Blocks.Scan(Enc.WireAll(Filled(slots))).elements;
    forall k | 0 <= k < |elements|
      ensures elements[k] == Held(slots)[k]
    {
      assert Ok(elements[k]) == Expected(Filled(slots)[k]);
    }
    assert elements == Held(slots);
  }

  /** Looking for the type of a slot finds what it holds. */
  lemma {:induction false} FindSlot(slots: seq<Slot>, k: nat)
    requires AllFit(slots) && k < |slots|
    ensures Fits(slots[k]) && Find(Held(slots), slots[k].typ) ==
                              if slots[k].field.Some? then Some(Expected(slots[k].field.value).value) else None
  {
    hide Sound, Expected;
    var rest := Held(slots[1..]);
    assert slots[0] in slots && slots[k] in slots;
    if slots[0].field.Some? {
      SlotHasType(slots[0]);
      assert Held(slots)[1..] == rest;
    } else {
      assert Held(slots) == rest;
    }
    if k > 0 {
      FindSlot(slots[1..], k - 1);
    } else if slots[0].field.None? {
      FindNothing(slots[1..], slots[0].typ);
    }
  }

  lemma SlotHasType(s: Slot)
    requires Fits(s) && s.field.Some?
    ensures Expected(s.field.value).value.typ == s.typ
  {
  }

  lemma {:induction false} FindNothing(slots: seq<Slot>, typ: nat)
    requires AllFit(slots) && forall s <- slots :: s.typ != typ
    ensures Find(Held(slots), typ) == None
  {
    hide Sound, Expected;
    if slots != [] {
      assert slots[0] in slots;
      FindNothing(slots[1..], typ);
      if slots[0].field.Some? {
        SlotHasType(slots[0]);
        assert Held(slots)[1..] == Held(slots[1..]);
      } else {
        assert Held(slots) == Held(slots[1..]);
      }
    }
  }

  // ---- round trip ----

  /** A KeyLocator element with content, which parses if it is a name. */
  ghost predicate IsKeyLocator(w: seq<byte>)
  {
    && Blocks.ReadElement(w).Ok?
    && var e := Blocks.ReadElement(w).value;
       && e.wire == Some(w) && e.typ == KEY_LOCATOR && Parsed(e).Some? && Parsed(e).value != []
       && (Parsed(e).value[0].typ == NAME ==> Parsed(Parsed(e).value[0]).Some?)
  }

  /** Selectors as an Interest may hold them: numbers of type `int`, sizes of type `size_t`. */
  ghost predicate EncodableSelectors(s: Selectors)
  {
    && s.minSuffixComponents < 0x8000_0000 && s.maxSuffixComponents < 0x8000_0000 && s.childSelector < 0x8000_0000
    && (s.publisher.Some? ==> IsKeyLocator(s.publisher.value))
    && ExcludeMaps.Valid(s.exclude) && Excludes.Fits(s.exclude)
    && |Enc.WireAll(Filled(SelectorSlots(s)))| <= U64_MAX
  }

  ghost predicate IsLink(w: seq<byte>)
  {
    Blocks.ReadElement(w).Ok? && Blocks.ReadElement(w).value.wire == Some(w) && Blocks.ReadElement(w).value.typ == DATA
  }

  ghost predicate Encodable(i: Interest)
  {
    && (forall c <- i.name :: |c.value| <= U64_MAX) && |Enc.WireAll(NameFields(i.name))| <= U64_MAX
    && EncodableSelectors(i.selectors) && |i.nonce| <= U64_MAX && i.lifetime < TWO63
    && (i.link.Some? ==> IsLink(i.link.value))
    && (i.selectedDelegation.Some? ==>
          && i.link.Some? && i.selectedDelegation.value <= U64_MAX
          && var count := CountDelegations(Blocks.ReadElement(i.link.value).value);
             count.Some? && i.selectedDelegation.value < count.value)
    && |Enc.WireAll(Filled(InterestSlots(i)))| <= U64_MAX
  }

  /** A number that is not encoded is read back as -1. */
  function OrAbsent(n: int): int
  {
    if n >= 0 then n else -1
  }

  lemma NumberFits(typ: nat, n: int)
    requires typ <= U32_MAX && n <= U64_MAX
    ensures Fits(NumberSlot(typ, n))
    ensures n >= 0 ==>
              var e := Expected(Enc.Number(typ, n)).value;
              ReadNonNegativeInteger(|ValueOf(e)|, ValueOf(e)) == Integer(n)
  {
    if n >= 0 {
      NonNegativeIntegerRoundTrip(n, []);
      assert EncodeNonNegativeInteger(n) + [] == EncodeNonNegativeInteger(n);
    }
  }

  lemma LeafFits(typ: nat, value: seq<byte>)
    requires typ <= U32_MAX && |value| <= U64_MAX
    ensures Fits(Slot(typ, Some(Enc.Leaf(typ, value)))) && Expected(Enc.Leaf(typ, value)).value.value == Some(value)
    ensures Fits(Slot(typ, Some(Enc.Raw(Enc.Wire(Enc.Leaf(typ, value))))))
    ensures Expected(Enc.Raw(Enc.Wire(Enc.Leaf(typ, value)))).value.value == Some(value)
  {
    Blocks.WrittenElementReads(typ, value);
  }

  lemma NestedFits(typ: nat, fields: seq<Enc.Field>)
    requires typ <= U32_MAX && |Enc.WireAll(fields)| <= U64_MAX
    ensures Fits(Slot(typ, Some(Enc.Nested(typ, fields))))
    ensures Expected(Enc.Nested(typ, fields)).value.value == Some(Enc.WireAll(fields))
  {
  }

  lemma RawFits(typ: nat, w: seq<byte>)
    requires Blocks.ReadElement(w).Ok? && Blocks.ReadElement(w).value.wire == Some(w)
    requires Blocks.ReadElement(w).value.typ == typ
    ensures Fits(Slot(typ, Some(Enc.Raw(w)))) && Expected(Enc.Raw(w)) == Blocks.ReadElement(w)
  {
  }

  /** Looking for the number of a slot finds it, or that it is absent. */
  lemma FindNumberSlot(slots: seq<Slot>, k: nat, typ: nat, n: int, absent: int)
    requires AllFit(slots) && k < |slots| && slots[k] == NumberSlot(typ, n) && typ <= U32_MAX && n <= U64_MAX
    ensures FindNumber(Held(slots), typ, absent) == Some(if n >= 0 then n else absent)
  {
    hide Expected, Held;
    FindSlot(slots, k);
    NumberFits(typ, n);
  }

  lemma SelectorsFit(s: Selectors)
    requires EncodableSelectors(s)
    ensures AllFit(SelectorSlots(s))
  {
    hide Fits, Enc.WireAll;
    NumberFits(MIN_SUFFIX_COMPONENTS, s.minSuffixComponents);
    NumberFits(MAX_SUFFIX_COMPONENTS, s.maxSuffixComponents);
    NumberFits(CHILD_SELECTOR, s.childSelector);
    NoneFits();
    if s.publisher.Some? {
      RawFits(KEY_LOCATOR, s.publisher.value);
    }
    ExcludeFits(s.exclude);
    LeafFits(MUST_BE_FRESH, []);
  }

  lemma NoneFits()
    ensures forall typ :: Fits(Slot(typ, None))
  {
  }

  lemma ExcludeFits(e: ExcludeMaps.Entries)
    requires Excludes.Fits(e)
    ensures Fits(Slot(EXCLUDE, Some(Excludes.Description(e))))
    ensures Expected(Excludes.Description(e)).value.value == Some(Excludes.Value(e))
  {
    Excludes.ElementsHaveValues(e);
    NestedFits(EXCLUDE, Excludes.Fields(Excludes.Elements(e)));
  }

  lemma Narrowed(n: int)
    requires n < 0x8000_0000
    ensures Int32(OrAbsent(n)) == OrAbsent(n)
  {
  }

  /** Decoding the Selectors written returns the six of them. */
  lemma SelectorsDecode(s: Selectors, e: Element)
    requires EncodableSelectors(s) && e.value == Some(Enc.WireAll(Filled(SelectorSlots(s))))
    ensures DecodeSelectors(e) == Some(Selectors(OrAbsent(s.minSuffixComponents), OrAbsent(s.maxSuffixComponents),
                                                 s.publisher, s.exclude, OrAbsent(s.childSelector), s.mustBeFresh))
  {
    hide Held, AllFit, Expected, Find, FindNumber, Enc.WireAll, Int32, Filled;
    var slots := SelectorSlots(s);
    SelectorsFit(s);
    SlotsParseBack(slots);
    FindNumberSlot(slots, 0, MIN_SUFFIX_COMPONENTS, s.minSuffixComponents, -1);
    FindNumberSlot(slots, 1, MAX_SUFFIX_COMPONENTS, s.maxSuffixComponents, -1);
    FindSlot(slots, 2);
    FindSlot(slots, 3);
    FindNumberSlot(slots, 4, CHILD_SELECTOR, s.childSelector, -1);
    FindSlot(slots, 5);
    Narrowed(s.minSuffixComponents);
    Narrowed(s.maxSuffixComponents);
    Narrowed(s.childSelector);
    if s.publisher.Some? {
      RawFits(KEY_LOCATOR, s.publisher.value);
      assert DecodePublisher(Blocks.ReadElement(s.publisher.value).value) == Some(s.publisher);
    }
    if s.exclude != [] {
      ExcludeFits(s.exclude);
      Excludes.ValueRoundTrip(s.exclude);
    }
  }

  lemma NameDecodes(n: Name, e: Element)
    requires (forall c <- n :: |c.value| <= U64_MAX) && e.value == Some(Enc.WireAll(NameFields(n)))
    ensures DecodeName(e) == Some(n)
  {
    hide Enc.WireAll, Expected;
    var fields := NameFields(n);
    forall k | 0 <= k < |n|
      ensures Sound(fields[k]) && Expected(fields[k]).Ok?
      ensures Expected(fields[k]).value.typ == n[k].typ && Expected(fields[k]).value.value == Some(n[k].value)
    {
      assert n[k] in n;
      ComponentIsSound(n[k]);
    }
    FieldsParseBack(fields);
    var els := Parsed(e).value;
    forall k | 0 <= k < |n|
      ensures Component(els[k].typ, ValueOf(els[k])) == n[k]
    {
      assert Ok(els[k]) == Expected(fields[k]);
    }
    assert DecodeName(e).value == n;
  }

  lemma ComponentIsSound(c: Component)
    requires |c.value| <= U64_MAX
    ensures Sound(Enc.Leaf(c.typ, c.value))
    ensures Expected(Enc.Leaf(c.typ, c.value)).Ok?
    ensures Expected(Enc.Leaf(c.typ, c.value)).value.typ == c.typ
    ensures Expected(Enc.Leaf(c.typ, c.value)).value.value == Some(c.value)
  {
  }

  lemma InterestFits(i: Interest)
    requires Encodable(i)
    ensures AllFit(InterestSlots(i))
  {
    hide Fits, Enc.WireAll, Enc.Wire, EncodableSelectors, SelectorSlots, CountDelegations, AllFit;
    var slots := InterestSlots(i);
    NestedFits(NAME, NameFields(i.name));
    SelectorsSize(i.selectors);
    NestedFits(SELECTORS, Filled(SelectorSlots(i.selectors)));
    LeafFits(NONCE, i.nonce);
    NoneFits();
    LifetimeFits(i);
    LinkFits(i);
    assert Fits(slots[0]) && Fits(slots[1]) && Fits(slots[2]) && Fits(slots[3]) && Fits(slots[4]) && Fits(slots[5]);
    SixFit(slots);
  }

  lemma LifetimeFits(i: Interest)
    requires Encodable(i)
    ensures Fits(InterestSlots(i)[3])
  {
    hide Encodable;
    LifetimeSize(i);
    NumberFits(INTEREST_LIFETIME, if i.lifetime == DEFAULT_INTEREST_LIFETIME then -1 else i.lifetime);
  }

  lemma LifetimeSize(i: Interest)
    requires Encodable(i)
    ensures i.lifetime < TWO63
  {
  }

  lemma LinkFits(i: Interest)
    requires Encodable(i)
    ensures Fits(InterestSlots(i)[4]) && Fits(InterestSlots(i)[5])
  {
    hide Fits, Enc.WireAll, EncodableSelectors, CountDelegations;
    NoneFits();
    if i.link.Some? {
      RawFits(DATA, i.link.value);
    }
    if i.selectedDelegation.Some? {
      NumberFits(SELECTED_DELEGATION, i.selectedDelegation.value);
    }
  }

  lemma SixFit(slots: seq<Slot>)
    requires |slots| == 6 && forall k :: 0 <= k < 6 ==> Fits(slots[k])
    requires forall i, j :: 0 <= i < j < 6 ==> slots[i].typ != slots[j].typ
    ensures AllFit(slots)
  {
    hide Fits;
  }

  lemma SelectorsSize(s: Selectors)
    requires EncodableSelectors(s)
    ensures |Enc.WireAll(Filled(SelectorSlots(s)))| <= U64_MAX
  {
  }

  /** What an Interest is after its wire was decoded: absent numbers are -1, an absent lifetime is 4000. */
  function Read(i: Interest): Packet
  {
    var s := i.selectors;
    Packet(i.name,
           Selectors(OrAbsent(s.minSuffixComponents), OrAbsent(s.maxSuffixComponents), s.publisher, s.exclude,
                     OrAbsent(s.childSelector), s.mustBeFresh),
           i.nonce, if i.lifetime >= 0 then i.lifetime else 4000, i.link, i.selectedDelegation)
  }

  /** Decoding the elements written returns every field of the Interest. */
  lemma FieldsDecode(i: Interest)
    requires Encodable(i)
    ensures AllFit(InterestSlots(i)) && DecodeFields(Held(InterestSlots(i))) == Some(Read(i))
  {
    hide Held, AllFit, Expected, Find, FindNumber, Enc.WireAll, Enc.Wire, Filled, Int64, CountDelegations,
         EncodableSelectors, DecodeDelegation, DecodeName, DecodeSelectors;
    var slots := InterestSlots(i);
    InterestFits(i);
    FindSlot(slots, 0);
    NestedFits(NAME, NameFields(i.name));
    NameDecodes(i.name, Expected(Enc.Nested(NAME, NameFields(i.name))).value);
    FindSlot(slots, 1);
    if HasSelectors(i.selectors) {
      SelectorsSize(i.selectors);
      NestedFits(SELECTORS, Filled(SelectorSlots(i.selectors)));
      SelectorsDecode(i.selectors, Expected(Enc.Nested(SELECTORS, Filled(SelectorSlots(i.selectors)))).value);
    }
    FindSlot(slots, 2);
    LeafFits(NONCE, i.nonce);
    FindNumberSlot(slots, 3, INTEREST_LIFETIME, if i.lifetime == DEFAULT_INTEREST_LIFETIME then -1 else i.lifetime,
                   DEFAULT_INTEREST_LIFETIME);
    FindSlot(slots, 4);
    if i.link.Some? {
      RawFits(DATA, i.link.value);
    }
    DelegationDecodes(i);
  }

  lemma DelegationDecodes(i: Interest)
    requires Encodable(i) && AllFit(InterestSlots(i))
    ensures DecodeDelegation(Held(InterestSlots(i))) == Some(i.selectedDelegation)
  {
    hide Held, AllFit, Expected, Find, Enc.WireAll, Enc.Wire, Filled, CountDelegations, EncodableSelectors;
    FindSlot(InterestSlots(i), 4);
    FindSlot(InterestSlots(i), 5);
    if i.selectedDelegation.Some? {
      NumberFits(SELECTED_DELEGATION, i.selectedDelegation.value);
      RawFits(DATA, i.link.value);
    }
  }

  /** Interest wire round trip, down to the octets. */
  lemma InterestRoundTrip(i: Interest)
    requires Encodable(i)
    ensures DecodeInterest(Enc.Wire(InterestDescription(i))) == Some(Read(i))
  {
    hide Encodable, Enc.WireAll, Filled, DecodeFields, Held, AllFit;
    var value := Enc.WireAll(Filled(InterestSlots(i)));
    var wire := Enc.Wire(InterestDescription(i));
    assert wire == Enc.Wire(Enc.Leaf(INTEREST, value));
    InterestSize(i);
    Blocks.WrittenElementReads(INTEREST, value);
    Blocks.FromWholeReads(wire);
    FieldsDecode(i);
    SlotsParseBack(InterestSlots(i));
  }

  lemma InterestSize(i: Interest)
    requires Encodable(i)
    ensures |Enc.WireAll(Filled(InterestSlots(i)))| <= U64_MAX
  {
  }

  function TypesOf(els: seq<Element>): seq<nat>
  {
    seq(|els|, k requires 0 <= k < |els| => els[k].typ)
  }

  function FilledTypes(slots: seq<Slot>): seq<nat>
  {
    if slots == [] then [] else Present(slots[0]) + FilledTypes(slots[1..])
  }

  /** The elements of an Interest stand in the documented order, each where it is called for. */
  lemma ElementOrder(i: Interest)
    requires Encodable(i)
    ensures var s := i.selectors;
            var selectors := s.minSuffixComponents >= 0 || s.maxSuffixComponents >= 0 || s.publisher.Some?
                             || s.exclude != [] || s.childSelector >= 0 || s.mustBeFresh;
            var parsed := Blocks.Scan(Enc.WireAll(Filled(InterestSlots(i))));
            && parsed.error.None?
            && TypesOf(parsed.elements) ==
               [7] + (if selectors then [9] else []) + [10]
               + (if i.lifetime >= 0 && i.lifetime != 4000 then [12] else [])
               + (if i.link.Some? then [6] else []) + (if i.selectedDelegation.Some? then [32] else [])
  {
    hide Expected, Enc.WireAll, Held, Fits, AllFit, Filled, InterestSlots, TypesOf, Encodable;
    InterestFits(i);
    SlotsParseBack(InterestSlots(i));
    HeldTypes(InterestSlots(i));
    SlotTypes(i);
  }

  lemma SlotTypes(i: Interest)
    requires Encodable(i)
    ensures FilledTypes(InterestSlots(i)) ==
            var s := i.selectors;
            var selectors := s.minSuffixComponents >= 0 || s.maxSuffixComponents >= 0 || s.publisher.Some?
                             || s.exclude != [] || s.childSelector >= 0 || s.mustBeFresh;
            [7] + (if selectors then [9] else []) + [10]
            + (if i.lifetime >= 0 && i.lifetime != 4000 then [12] else [])
            + (if i.link.Some? then [6] else []) + (if i.selectedDelegation.Some? then [32] else [])
  {
    hide EncodableSelectors, Enc.WireAll, Enc.Wire, CountDelegations, FilledTypes, SelectorSlots;
    SixTypes(InterestSlots(i));
  }

  /** So do the selectors, each if it is set. */
  lemma SelectorOrder(s: Selectors)
    requires EncodableSelectors(s)
    ensures var parsed := Blocks.Scan(Enc.WireAll(Filled(SelectorSlots(s))));
            && parsed.error.None?
            && TypesOf(parsed.elements) ==
               (if s.minSuffixComponents >= 0 then [13] else []) + (if s.maxSuffixComponents >= 0 then [14] else [])
               + (if s.publisher.Some? then [28] else []) + (if s.exclude != [] then [16] else [])
               + (if s.childSelector >= 0 then [17] else []) + (if s.mustBeFresh then [18] else [])
  {
    hide Expected, Enc.WireAll, Enc.Wire, Held, Fits, AllFit, Filled, TypesOf, EncodableSelectors, FilledTypes;
    var slots := SelectorSlots(s);
    SelectorsFit(s);
    SlotsParseBack(slots);
    HeldTypes(slots);
    SixTypes(slots);
  }

  /** The Interest for /a that must be fresh, for one second, octet by octet. */
  lemma FreshInterest()
    ensures var s := Selectors(-1, -1, None, [], -1, true);
            Enc.Wire(InterestDescription(Interest([Component(8, [0x61])], s, [1, 2, 3, 4], 1000, None, None))) ==
            [0x05, 0x13] + ([0x07, 0x03, 0x08, 0x01, 0x61] + [0x09, 0x02, 0x12, 0x00]
                            + [0x0A, 0x04, 1, 2, 3, 4] + [0x0C, 0x02, 0x03, 0xE8])
  {
    hide Enc.Wire, Enc.WireAll, NameFields, SelectorSlots, Filled;
    var s := Selectors(-1, -1, None, [], -1, true);
    var i := Interest([Component(8, [0x61])], s, [1, 2, 3, 4], 1000, None, None);
    NameOctets();
    FreshOctets();
    LeafOctets(NONCE, i.nonce);
    RawOctets(Enc.Wire(Enc.Leaf(NONCE, i.nonce)));
    Thousand();
    FilledSix(InterestSlots(i));
    var slots := InterestSlots(i);
    var a, b, c, d := slots[0].field.value, slots[1].field.value, slots[2].field.value, slots[3].field.value;
    assert Filled(slots) == [a, b, c, d];
    FourFields(a, b, c, d);
    NestedOctets(INTEREST, Filled(slots));
  }

  lemma NameOctets()
    ensures Enc.Wire(Enc.Nested(7, NameFields([Component(8, [0x61])]))) == [0x07, 0x03, 0x08, 0x01, 0x61]
  {
    hide Enc.WireAll;
    var only := Enc.Leaf(8, [0x61]);
    assert NameFields([Component(8, [0x61])]) == [only];
    SingleField(only);
    NestedOctets(7, [only]);
  }

  lemma FreshOctets()
    ensures Enc.Wire(Enc.Nested(9, Filled(SelectorSlots(Selectors(-1, -1, None, [], -1, true)))))
         == [0x09, 0x02, 0x12, 0x00]
  {
    hide Enc.WireAll, Filled;
    var only := Enc.Leaf(18, []);
    var slots := SelectorSlots(Selectors(-1, -1, None, [], -1, true));
    FilledSix(slots);
    assert Filled(slots) == [only];
    SingleField(only);
    NestedOctets(9, [only]);
  }

  lemma LeafOctets(typ: nat, value: seq<byte>)
    requires typ < 253 && |value| < 253
    ensures Enc.Wire(Enc.Leaf(typ, value)) == [typ, |value|] + value
  {
  }

  lemma RawOctets(wire: seq<byte>)
    ensures Enc.Wire(Enc.Raw(wire)) == wire
  {
  }

  lemma NestedOctets(typ: nat, fields: seq<Enc.Field>)
    requires typ < 253 && |Enc.WireAll(fields)| < 253
    ensures Enc.Wire(Enc.Nested(typ, fields)) == [typ, |Enc.WireAll(fields)|] + Enc.WireAll(fields)
  {
    hide Enc.WireAll;
  }

  lemma SingleField(f: Enc.Field)
    ensures Enc.WireAll([f]) == Enc.Wire(f)
  {
    assert [f][1..] == [];
  }

  lemma FirstField(f: Enc.Field, fields: seq<Enc.Field>)
    ensures Enc.WireAll([f] + fields) == Enc.Wire(f) + Enc.WireAll(fields)
  {
    assert ([f] + fields)[1..] == fields;
  }

  lemma FourFields(a: Enc.Field, b: Enc.Field, c: Enc.Field, d: Enc.Field)
    ensures Enc.WireAll([a, b, c, d]) == Enc.Wire(a) + Enc.Wire(b) + Enc.Wire(c) + Enc.Wire(d)
  {
    hide Enc.Wire, Enc.WireAll;
    SingleField(d);
    FirstField(c, [d]);
    FirstField(b, [c, d]);
    FirstField(a, [b, c, d]);
    assert [c] + [d] == [c, d] && [b] + [c, d] == [b, c, d] && [a] + [b, c, d] == [a, b, c, d];
  }

  lemma FilledSix(slots: seq<Slot>)
    requires |slots| == 6
    ensures Filled(slots) == Of(slots[0]) + Of(slots[1]) + Of(slots[2]) + Of(slots[3]) + Of(slots[4]) + Of(slots[5])
  {
    hide Of;
    assert slots[5..][1..] == slots[6..] && slots[4..][1..] == slots[5..] && slots[3..][1..] == slots[4..];
    assert slots[2..][1..] == slots[3..] && slots[1..][1..] == slots[2..];
    assert Filled(slots[5..]) == Of(slots[5]) + [] == Of(slots[5]);
    assert Filled(slots[4..]) == Of(slots[4]) + Filled(slots[5..]);
    assert Filled(slots[3..]) == Of(slots[3]) + Filled(slots[4..]);
    assert Filled(slots[2..]) == Of(slots[2]) + Filled(slots[3..]);
    assert Filled(slots[1..]) == Of(slots[1]) + Filled(slots[2..]);
  }

  lemma Thousand()
    ensures Enc.Wire(Enc.Number(12, 1000)) == [0x0C, 0x02, 0x03, 0xE8]
  {
    assert ToBigEndian(3, 1) == ToBigEndian(0, 0) + [3];
    assert ToBigEndian(1000, 2) == ToBigEndian(3, 1) + [0xE8];
  }

  function Present(s: Slot): seq<nat>
  {
    if s.field.Some? then [s.typ] else []
  }

  lemma SixTypes(slots: seq<Slot>)
    requires |slots| == 6
    ensures FilledTypes(slots) == Present(slots[0]) + Present(slots[1]) + Present(slots[2]) + Present(slots[3])
                                  + Present(slots[4]) + Present(slots[5])
  {
    hide Present;
    assert FilledTypes(slots[6..]) == [];
    assert slots[5..][1..] == slots[6..];
    assert slots[4..][1..] == slots[5..];
    assert slots[3..][1..] == slots[4..];
    assert slots[2..][1..] == slots[3..];
    assert slots[1..][1..] == slots[2..];
    assert FilledTypes(slots[5..]) == Present(slots[5]) + [] == Present(slots[5]);
    assert FilledTypes(slots[4..]) == Present(slots[4]) + FilledTypes(slots[5..]);
    assert FilledTypes(slots[3..]) == Present(slots[3]) + FilledTypes(slots[4..]);
    assert FilledTypes(slots[2..]) == Present(slots[2]) + FilledTypes(slots[3..]);
    assert FilledTypes(slots[1..]) == Present(slots[1]) + FilledTypes(slots[2..]);
  }

  lemma {:induction false} HeldTypes(slots: seq<Slot>)
    requires AllFit(slots)
    ensures TypesOf(Held(slots)) == FilledTypes(slots)
  {
    hide Sound, Expected;
    if slots != [] {
      assert slots[0] in slots;
      HeldTypes(slots[1..]);
      if slots[0].field.Some? {
        SlotHasType(slots[0]);
      }
      assert TypesOf(Held(slots)) == Present(slots[0]) + TypesOf(Held(slots[1..]));
    }
  }

  /** Interest::wireEncode, estimating and then encoding: the estimate sizes the buffer exactly, and what is
      decoded from it, as the method goes on to do, is the Interest. */
  method WireEncode(i: Interest) returns (wire: seq<byte>, estimated: nat)
    requires i.link.None? ==> i.selectedDelegation.None?
    ensures estimated == |wire|
    ensures wire == Enc.Wire(InterestDescription(i))
    ensures Encodable(i) ==> DecodeInterest(wire) == Some(Read(i))
  {
    hide Encodable, InterestSlots, DecodeInterest, Enc.Wire;
    var description := InterestDescription(i);
    estimated := Enc.Estimate(description);
    Enc.EstimateIsExact(description);
    var encoder, buffer := Enc.EncodeTight(description);
    wire := buffer[..];
    if Encodable(i) {
      InterestRoundTrip(i);
    }
  }
}
