/** TLV elements: parsing and encoding (src/encoding/block.cpp). */
module Blocks {
  import opened Results
  import opened Octets
  import opened Tlv
  import opened Encoding

  type u32 = x: nat | x <= U32_MAX

  datatype Error =
    | TlvError     // a TLV-TYPE or TLV-LENGTH cannot be read
    | Overrun      // TLV-LENGTH reaches past the end of the buffer
    | NoBuffer     // neither wire nor value: the size is undefined
    | Mismatch     // TLV-LENGTH differs from the octets that follow

  /** A sub-block as a value; `wire` is what hasWire() finds, `value` what hasValue() finds. */
  datatype Element = Element(typ: u32, value: Option<seq<byte>>, wire: Option<seq<byte>>) {

    /** The wire, when there is one, is some encoding (not necessarily the shortest) of type and value. */
    ghost predicate WellFormed()
    {
      && (wire.None? && value.Some? ==> |value.value| <= U64_MAX)
      && (wire.Some? ==> value.Some? && ReadElement(wire.value) == Ok(this))
    }

    /** m_size, as the constructors compute it. */
    function Size(): Result<nat, Error>
    {
      if wire.Some? then Ok(|wire.value|)
      else if value.Some? then
        Ok(SizeOfVarNumber(typ) + SizeOfVarNumber(|value.value|) + |value.value|)
      else Err(NoBuffer)
    }

    /** The octets the element contributes to an encoding. */
    function Octets(): seq<byte>
      requires wire.Some? || value.Some?
    {
      if wire.Some? then wire.value else Wire(Leaf(typ, value.value))
    }
  }

  /** The header of an element: its type, the length of its value, and the octets they took. */
  datatype Head = Head(typ: u32, length: nat, size: nat)

  /** readType then readVarNumber. */
  function ReadHead(s: seq<byte>): Result<Head, Error>
  {
    var t := ReadType(s);
    if !t.ok then Err(TlvError)
    else
      var l := ReadVarNumber(s[t.consumed..]);
      if !l.ok then Err(TlvError) else Ok(Head(t.number, l.number, t.consumed + l.consumed))
  }

  /** One element off the front of a buffer. */
  function ReadElement(s: seq<byte>): (r: Result<Element, Error>)
    ensures r.Ok? ==> r.value.wire.Some? && r.value.value.Some? && 0 < |r.value.wire.value| <= |s|
    ensures r.Ok? ==> s[..|r.value.wire.value|] == r.value.wire.value
  {
    match ReadHead(s)
    case Err(e) => Err(e)
    case Ok(h) =>
      if h.length > |s| - h.size then Err(Overrun)
      else Ok(Element(h.typ, Some(s[h.size..h.size + h.length]), Some(s[..h.size + h.length])))
  }

  /** The parsing loop: elements in order up to the end of the buffer or the first error. */
  datatype Scanned = Scanned(elements: seq<Element>, error: Option<Error>)

  function Scan(s: seq<byte>): Scanned
    decreases |s|
  {
    if s == [] then Scanned([], None)
    else match ReadElement(s)
      case Err(e) => Scanned([], Some(e))
      case Ok(e) =>
        var rest := Scan(s[|e.wire.value|..]);
        Scanned([e] + rest.elements, rest.error)
  }

  function Concat(elements: seq<Element>): seq<byte>
    requires forall e <- elements :: e.wire.Some? || e.value.Some?
  {
    if elements == [] then [] else elements[0].Octets() + Concat(elements[1..])
  }

  /** The same type and value, with the octets they were found in. */
  function Stored(e: Element): Element
    requires e.wire.Some? || e.value.Some?
  {
    e.(wire := Some(e.Octets()))
  }

  // ---- properties of the scan ----

  lemma HeadIsLocal(s: seq<byte>, t: seq<byte>)
    requires ReadHead(s).Ok?
    ensures ReadHead(s).value.size <= |s|
    ensures ReadHead(s[..ReadHead(s).value.size] + t) == ReadHead(s)
  {
    hide FromBigEndian;
    var k := ReadVarNumber(s).consumed;
    var s1 := s[k..];
    var l := ReadVarNumber(s1);
    WrittenFormIsShortest(s);
    WrittenFormIsShortest(s1);
    ReadIsLocal(s, s1[..l.consumed] + t);
    ReadIsLocal(s1, t);
    var w := s[..k + l.consumed] + t;
    assert w == s[..k] + (s1[..l.consumed] + t);
    assert w[k..] == s1[..l.consumed] + t;
  }

  /** Reading looks at nothing beyond the element. */
  lemma ReadElementIsLocal(w: seq<byte>, rest: seq<byte>)
    requires ReadElement(w).Ok? && ReadElement(w).value.wire == Some(w)
    ensures ReadElement(w + rest) == ReadElement(w)
  {
    hide ReadHead;
    var h := ReadHead(w).value;
    HeadIsLocal(w, w[h.size..] + rest);
    assert w + rest == w[..h.size] + (w[h.size..] + rest);
    assert h.size + h.length == |w|;
    assert (w + rest)[h.size..|w|] == w[h.size..|w|];
    assert (w + rest)[..|w|] == w == w[..|w|];
  }

  /** What is read is well formed on its own. */
  lemma ReadElementWellFormed(s: seq<byte>)
    requires ReadElement(s).Ok?
    ensures ReadElement(s).value.WellFormed()
  {
    hide ReadHead;
    var w := ReadElement(s).value.wire.value;
    var h := ReadHead(s).value;
    HeadIsLocal(s, w[h.size..]);
    assert w == s[..h.size] + w[h.size..];
    assert w[h.size..h.size + h.length] == s[h.size..h.size + h.length];
    assert w[..h.size + h.length] == w;
  }

  lemma WrittenElementReads(typ: u32, value: seq<byte>)
    requires |value| <= U64_MAX
    ensures var w := Wire(Leaf(typ, value));
            ReadElement(w) == Ok(Element(typ, Some(value), Some(w)))
  {
    var w := Wire(Leaf(typ, value));
    var tail := WriteVarNumber(|value|) + value;
    assert w == WriteVarNumber(typ) + tail;
    VarNumberRoundTrip(typ, tail);
    assert w[SizeOfVarNumber(typ)..] == tail;
    VarNumberRoundTrip(|value|, value);
    var begin := SizeOfVarNumber(typ) + SizeOfVarNumber(|value|);
    assert w[begin..begin + |value|] == value;
    assert w[..begin + |value|] == w;
  }

  /** An element followed by anything is the first one read. */
  lemma StoredReads(e: Element, rest: seq<byte>)
    requires (e.wire.Some? || e.value.Some?) && e.WellFormed()
    ensures ReadElement(e.Octets() + rest) == Ok(Stored(e))
  {
    hide ReadElement, Wire;
    if e.wire.None? {
      WrittenElementReads(e.typ, e.value.value);
    }
    ReadElementIsLocal(e.Octets(), rest);
  }

  /** Parsed elements partition the octets scanned: all of them when there is no error. */
  lemma {:induction false} ScanPartitions(s: seq<byte>)
    ensures forall e <- Scan(s).elements :: e.WellFormed() && e.wire.Some?
    ensures Concat(Scan(s).elements) <= s
    ensures Scan(s).error.None? <==> Concat(Scan(s).elements) == s
    decreases |s|
  {
    hide ReadHead;
    if s != [] && ReadElement(s).Ok? {
      var e := ReadElement(s).value;
      ReadElementWellFormed(s);
      var k := |e.wire.value|;
      ScanPartitions(s[k..]);
      assert Scan(s).elements[1..] == Scan(s[k..]).elements;
      assert s == e.wire.value + s[k..];
      assert Concat(Scan(s).elements)[k..] == Concat(Scan(s[k..]).elements);
    }
  }

  /** Block parse undoes encode: whatever mix of wire and value-only sub-blocks was written, the scan
      returns the same types and values in order. */
  lemma {:induction false} ScanUndoesConcat(elements: seq<Element>)
    requires forall e <- elements :: (e.wire.Some? || e.value.Some?) && e.WellFormed()
    ensures |Scan(Concat(elements)).elements| == |elements| && Scan(Concat(elements)).error.None?
    ensures forall i :: 0 <= i < |elements| ==> Scan(Concat(elements)).elements[i] == Stored(elements[i])
  {
    hide ReadElement;
    if elements != [] {
      var e, w := elements[0], Concat(elements);
      var rest := Concat(elements[1..]);
      StoredReads(e, rest);
      assert w == e.Octets() + rest && w[|e.Octets()|..] == rest;
      ScanUndoesConcat(elements[1..]);
      assert Scan(w).elements == [Stored(e)] + Scan(rest).elements;
    }
  }

  /** The scan goes on as long as elements can be read: what it stops at is why it failed. */
  lemma {:induction false} ScanStops(s: seq<byte>)
    requires Scan(s).error.Some?
    ensures (forall e <- Scan(s).elements :: e.wire.Some?) && |Concat(Scan(s).elements)| < |s|
    ensures ReadElement(s[|Concat(Scan(s).elements)|..]) == Err(Scan(s).error.value)
    decreases |s|
  {
    hide ReadHead;
    if ReadElement(s).Ok? {
      var e := ReadElement(s).value;
      var k := |e.wire.value|;
      ScanStops(s[k..]);
      var rest := Scan(s[k..]).elements;
      assert Scan(s).elements[1..] == rest;
      assert s[k..][|Concat(rest)|..] == s[k + |Concat(rest)|..];
    } else {
      assert s[0..] == s;
    }
  }

  /** A header as it is written is followed by its value, or the length overruns. */
  lemma OverrunMeans(typ: u32, length: nat, rest: seq<byte>)
    requires length <= U64_MAX
    ensures ReadElement(Header(typ, length) + rest) ==
            if length > |rest| then Err(Overrun)
            else Ok(Element(typ, Some(rest[..length]), Some(Header(typ, length) + rest[..length])))
  {
    hide WriteVarNumber, ReadVarNumber, FromBigEndian, ToBigEndian;
    HeaderReads(typ, length, rest);
    var s, size := Header(typ, length) + rest, |Header(typ, length)|;
    if length <= |rest| {
      assert s[size..size + length] == rest[..length];
      assert s[..size + length] == Header(typ, length) + rest[..length];
    }
  }

  lemma HeaderReads(typ: u32, length: nat, rest: seq<byte>)
    requires length <= U64_MAX
    ensures ReadHead(Header(typ, length) + rest) == Ok(Head(typ, length, |Header(typ, length)|))
  {
    hide FromBigEndian, ToBigEndian, WriteVarNumber, ReadVarNumber;
    var s, tail := Header(typ, length) + rest, WriteVarNumber(length) + rest;
    assert s == WriteVarNumber(typ) + tail;
    VarNumberRoundTrip(typ, tail);
    assert s[SizeOfVarNumber(typ)..] == tail;
    VarNumberRoundTrip(length, rest);
  }

  /** A header that ends too early, or a type beyond 32 bits, cannot be read. */
  lemma UnreadableMeans(typ: u32, length: nat, k: nat, large: nat, rest: seq<byte>)
    requires length <= U64_MAX && U32_MAX < large <= U64_MAX
    ensures k < |Header(typ, length)| ==> ReadElement(Header(typ, length)[..k]) == Err(TlvError)
    ensures ReadElement(WriteVarNumber(large) + rest) == Err(TlvError)
  {
    hide WriteVarNumber, ReadVarNumber;
    VarNumberRoundTrip(large, rest);
    var t, l, n := WriteVarNumber(typ), WriteVarNumber(length), SizeOfVarNumber(typ);
    if k < n {
      CutShortFails(typ, k);
      assert Header(typ, length)[..k] == t[..k];
    } else if k < |Header(typ, length)| {
      CutShortFails(length, k - n);
      VarNumberRoundTrip(typ, l[..k - n]);
      assert Header(typ, length)[..k] == t + l[..k - n];
      assert (t + l[..k - n])[n..] == l[..k - n];
    }
  }

  // ---- the other readers ----

  /** Block::fromBuffer on the octets from `offset`. */
  function FromBuffer(buffer: seq<byte>, offset: nat): (r: Option<Element>)
    requires offset <= |buffer|
  {
    var s := buffer[offset..];
    var t := ReadType(s);
    if !t.ok then None
    else
      var l := ReadVarNumber(s[t.consumed..]);
      var begin := offset + t.consumed + l.consumed;
      if !l.ok || l.number > |buffer| - begin then None
      else Some(Element(t.number, Some(buffer[begin..begin + l.number]), Some(buffer[offset..begin + l.number])))
  }

  /** Block::blockFromValue, and the constructors that verify the length of a whole buffer. */
  function FromWhole(s: seq<byte>): Result<Element, Error>
  {
    var t := ReadType(s);
    if !t.ok then Err(TlvError)
    else
      var l := ReadVarNumber(s[t.consumed..]);
      if !l.ok then Err(TlvError)
      else if l.number != |s| - t.consumed - l.consumed then Err(Mismatch)
      else Ok(Element(t.number, Some(s[t.consumed + l.consumed..]), Some(s)))
  }

  lemma FromBufferReads(s: seq<byte>)
    ensures FromBuffer(s, 0) == if ReadElement(s).Ok? then Some(ReadElement(s).value) else None
  {
    hide FromBigEndian;
    assert s[0..] == s;
    if ReadHead(s).Ok? {
      HeadIsLocal(s, []);
    }
  }

  lemma FromWholeReads(s: seq<byte>)
    ensures FromWhole(s).Ok? <==> ReadElement(s).Ok? && ReadElement(s).value.wire == Some(s)
    ensures FromWhole(s).Ok? ==> FromWhole(s) == ReadElement(s)
  {
    hide FromBigEndian;
    if ReadHead(s).Ok? {
      var h := ReadHead(s).value;
      HeadIsLocal(s, []);
      assert s[..|s|] == s;
      assert s[h.size..|s|] == s[h.size..];
    }
  }

  /** The three readers agree: fromBuffer finds the first element of the scan, and the whole-buffer
      reader accepts exactly the buffers that scan to a single element, returning it. */
  lemma ReadersAgree(s: seq<byte>)
    ensures FromBuffer(s, 0).Some? <==> Scan(s).elements != []
    ensures FromBuffer(s, 0).Some? ==> FromBuffer(s, 0).value == Scan(s).elements[0]
    ensures FromWhole(s).Ok? <==> Scan(s).error.None? && |Scan(s).elements| == 1
    ensures FromWhole(s).Ok? ==> Scan(s).elements == [FromWhole(s).value]
  {
    hide FromBigEndian;
    FromBufferReads(s);
    FromWholeReads(s);
    if s != [] && ReadElement(s).Ok? {
      var e := ReadElement(s).value;
      var rest := s[|e.wire.value|..];
      if rest == [] {
        assert e.wire.value == s;
      }
    }
  }

  lemma SizeIsExact(e: Element)
    ensures e.Size() == if e.wire.Some? || e.value.Some? then Ok(|e.Octets()|) else Err(NoBuffer)
  {
  }

  /** The first loop of `encode`: the sum of the sub-block sizes. */
  method TotalSize(elements: seq<Element>) returns (r: Result<nat, Error>)
    ensures r == if forall e <- elements :: e.wire.Some? || e.value.Some? then Ok(|Concat(elements)|) else Err(NoBuffer)
  {
    hide Concat, Element.Size, Element.Octets;
    ConcatNothing();
    var valueSize, i := 0, 0;
    while i < |elements|
      invariant i <= |elements|
      invariant forall e <- elements[..i] :: e.wire.Some? || e.value.Some?
      invariant valueSize == |Concat(elements[..i])|
    {
      SizeIsExact(elements[i]);
      var size := elements[i].Size();
      if size.Err? {
        assert elements[i] in elements;
        return size;
      }
      ConcatSnoc(elements[..i], elements[i]);
      assert elements[..i + 1] == elements[..i] + [elements[i]];
      valueSize := valueSize + size.value;
      i := i + 1;
    }
    assert elements[..i] == elements;
    return Ok(valueSize);
  }

  /** The second loop of `encode`. */
  method WriteElements(header: seq<byte>, elements: seq<Element>) returns (os: seq<byte>)
    requires forall e <- elements :: e.wire.Some? || e.value.Some?
    ensures os == header + Concat(elements)
  {
    hide Concat;
    os := header;
    ConcatNothing();
    for i := 0 to |elements|
      invariant os == header + Concat(elements[..i])
    {
      ConcatSnoc(elements[..i], elements[i]);
      assert elements[..i + 1] == elements[..i] + [elements[i]];
      os := os + elements[i].Octets();
    }
    assert elements[..|elements|] == elements;
  }

  function Without(elements: seq<Element>, unwanted: u32): seq<Element>
  {
    if elements == [] then []
    else (if elements[0].typ == unwanted then [] else [elements[0]]) + Without(elements[1..], unwanted)
  }

  /** Removing keeps, element by element and in order, what is not of the unwanted type. */
  lemma {:induction false} WithoutIsFilter(a: seq<Element>, e: Element, b: seq<Element>, unwanted: u32)
    ensures Without(a + [e] + b, unwanted)
         == Without(a, unwanted) + (if e.typ == unwanted then [] else [e]) + Without(b, unwanted)
    ensures Without([], unwanted) == []
  {
    hide Without;
    var all := a + [e] + b;
    WithoutUnfolds([], unwanted);
    WithoutUnfolds(a, unwanted);
    WithoutUnfolds(all, unwanted);
    if a == [] {
      assert all == [e] + b && all[1..] == b && all[0] == e;
    } else {
      WithoutIsFilter(a[1..], e, b, unwanted);
      assert all[1..] == a[1..] + [e] + b && all[0] == a[0];
      var head, own := if a[0].typ == unwanted then [] else [a[0]], if e.typ == unwanted then [] else [e];
      var before, after := Without(a[1..], unwanted), Without(b, unwanted);
      assert head + (before + own + after) == (head + before) + own + after;
    }
  }

  lemma WithoutUnfolds(elements: seq<Element>, unwanted: u32)
    ensures Without(elements, unwanted) ==
            if elements == [] then []
            else (if elements[0].typ == unwanted then [] else [elements[0]]) + Without(elements[1..], unwanted)
  {
  }

  lemma ConcatNothing()
    ensures Concat([]) == []
  {
  }

  lemma {:induction false} ConcatSnoc(elements: seq<Element>, e: Element)
    requires forall x <- elements :: x.wire.Some? || x.value.Some?
    requires e.wire.Some? || e.value.Some?
    ensures Concat(elements + [e]) == Concat(elements) + e.Octets()
  {
    hide Element.Octets;
    var all := elements + [e];
    if elements != [] {
      ConcatSnoc(elements[1..], e);
      assert all[1..] == elements[1..] + [e] && all[0] == elements[0];
    } else {
      assert all == [e] && all[1..] == [];
    }
  }

  /** Written header octets are skipped whole, whatever the length. */
  lemma WrittenHeaderSize(typ: u32, length: nat, rest: seq<byte>)
    ensures var w := Header(typ, length) + rest;
            && ReadType(w).consumed == SizeOfVarNumber(typ)
            && ReadVarNumber(w[SizeOfVarNumber(typ)..]).consumed == SizeOfVarNumber(length)
            && w[SizeOfVarNumber(typ) + SizeOfVarNumber(length)..] == rest
  {
    var tail := WriteVarNumber(length) + rest;
    assert Header(typ, length) + rest == WriteVarNumber(typ) + tail;
    VarNumberRoundTrip(typ, tail);
    assert (Header(typ, length) + rest)[SizeOfVarNumber(typ)..] == tail;
  }

  // ---- Block ----

  class Block {
    const typ: u32
    var value: Option<seq<byte>>
    var wire: Option<seq<byte>>
    var subBlocks: seq<Element>

    constructor (typ: u32)
      ensures this.typ == typ && value.None? && wire.None? && subBlocks == []
    {
      this.typ := typ;
      value, wire, subBlocks := None, None, [];
    }

    /** Does nothing once there are sub-blocks. A length that overruns leaves none; a type or length
        that cannot be read leaves the elements before it. */
    method Parse() returns (error: Option<Error>)
      modifies this`subBlocks
      ensures old(subBlocks) != [] || value.None? ==> error.None? && subBlocks == old(subBlocks)
      ensures old(subBlocks) == [] && value.Some? ==>
                error == Scan(value.value).error
                && subBlocks == if error == Some(Overrun) then [] else Scan(value.value).elements
    {
      hide ReadElement;
      if subBlocks != [] || value.None? || value.value == [] {
        return None;
      }
      var begin := value.value;
      assert subBlocks + Scan(begin).elements == Scan(begin).elements;
      while begin != []
        invariant subBlocks + Scan(begin).elements == Scan(value.value).elements
        invariant Scan(begin).error == Scan(value.value).error
        decreases |begin|
      {
        var r := ReadElement(begin);
        match r {
          case Err(e) =>
            if e == Overrun {
              subBlocks := [];
            }
            return Some(e);
          case Ok(e) =>
            assert subBlocks + ([e] + Scan(begin[|e.wire.value|..]).elements)
                == (subBlocks + [e]) + Scan(begin[|e.wire.value|..]).elements;
            subBlocks := subBlocks + [e];
            begin := begin[|e.wire.value|..];
        }
      }
      return None;
    }

    /** A failed parse can look like a success afterwards: the elements before an unreadable type or
        length stay, and the next call takes them for a finished parse. */
    method ParseTwice() returns (first: Option<Error>, second: Option<Error>)
      requires subBlocks == [] && value.Some?
      modifies this`subBlocks
      ensures first == Scan(value.value).error
      ensures first.Some? ==>
                (second.None? <==> first.value != Overrun && ReadElement(value.value).Ok?)
    {
      first := Parse();
      second := Parse();
    }

    /** Keeps an existing wire. Otherwise the wire is that of the value, or of the octets of the sub-blocks in
        order, which then are the value and parse back into the sub-blocks. */
    method Encode() returns (error: Option<Error>)
      modifies this`wire, this`value
      ensures error.Some? <==>
                && old(wire).None? && old(value).None?
                && exists e <- subBlocks :: e.wire.None? && e.value.None?
      ensures error.Some? ==> error == Some(NoBuffer)
      ensures error.Some? || old(wire).Some? ==> wire == old(wire) && value == old(value)
      ensures old(wire).None? && old(value).Some? ==>
                value == old(value) && wire == Some(Wire(Leaf(typ, old(value).value)))
      ensures error.None? && old(wire).None? && old(value).None? ==>
                && (forall e <- subBlocks :: e.wire.Some? || e.value.Some?)
                && value == Some(Concat(subBlocks)) && wire == Some(Wire(Leaf(typ, Concat(subBlocks))))
      ensures error.None? && old(wire).None? && old(value).None? && (forall e <- subBlocks :: e.WellFormed()) ==>
                && Scan(value.value).error.None? && |Scan(value.value).elements| == |subBlocks|
                && forall i :: 0 <= i < |subBlocks| ==> Scan(value.value).elements[i] == Stored(subBlocks[i])
    {
      hide Scan, Concat, Stored, Element.WellFormed;
      if wire.Some? {
        return None;
      }
      var os := WriteVarNumber(typ);
      if value.Some? {
        os := os + WriteVarNumber(|value.value|) + value.value;
      } else {
        var valueSize := TotalSize(subBlocks);
        if valueSize.Err? {
          return Some(valueSize.error);
        }
        os := os + WriteVarNumber(valueSize.value);
        os := WriteElements(os, subBlocks);
      }
      ghost var body := if value.Some? then value.value else Concat(subBlocks);
      assert os == Header(typ, |body|) + body;
      WrittenHeaderSize(typ, |body|, body);
      var t := ReadType(os);
      var l := ReadVarNumber(os[t.consumed..]);
      if value.None? && forall e <- subBlocks :: e.WellFormed() {
        ScanUndoesConcat(subBlocks);
      }
      wire, value := Some(os), Some(os[t.consumed + l.consumed..]);
      return None;
    }

    /** push_back drops the wire and keeps the other sub-blocks. */
    method PushBack(element: Element)
      modifies this
      ensures wire.None? && value.None? && subBlocks == old(subBlocks) + [element]
    {
      wire, value := None, None;
      subBlocks := subBlocks + [element];
    }

    method Remove(unwanted: u32)
      modifies this
      ensures wire.None? && value.None? && subBlocks == Without(old(subBlocks), unwanted)
    {
      wire, value := None, None;
      var kept: seq<Element> := [];
      for i := 0 to |subBlocks|
        invariant wire.None? && value.None? && subBlocks == old(subBlocks)
        invariant kept + Without(subBlocks[i..], unwanted) == Without(subBlocks, unwanted)
      {
        assert subBlocks[i..][1..] == subBlocks[i + 1..];
        if subBlocks[i].typ != unwanted {
          kept := kept + [subBlocks[i]];
        }
      }
      subBlocks := kept;
    }
  }

  /** An empty name component followed by the first octet of a type: the first parse fails, the second reports
      success with that component alone. */
  method ParseTruncated() returns (first: Option<Error>, second: Option<Error>)
    ensures first == Some(TlvError) && second == None
  {
    var block := new Block(NAME);
    block.value := Some([8, 0, 253]);
    TruncatedScan();
    first, second := block.ParseTwice();
  }

  lemma TruncatedScan()
    ensures ReadElement([8, 0, 253]).Ok? && Scan([8, 0, 253]).error == Some(TlvError)
  {
    var s: seq<byte> := [8, 0, 253];
    assert s[1..] == [0, 253] && s[2..2] == [] && s[..2] == [8, 0];
    assert ReadHead(s) == Ok(Head(8, 0, 2));
    assert s[2..] == [253] && !ReadVarNumber([253]).ok;
  }
}
