/** The Exclude selector: its mutators, its wire cache and its TLV form (src/exclude.cpp). */
module Excludes {
  import opened Results
  import opened Octets
  import opened Tlv
  import opened NameComponents
  import opened ExcludeMaps
  import Enc = Encoding
  import Blocks

  type Element = Blocks.Element

  datatype Error =
    | InvalidRange   // the range does not ascend
    | EmptyExclude   // nothing to encode, or nothing was encoded
    | UnexpectedType // not an Exclude TLV
    | BadFormat      // an element is neither Any nor a name component

  // ---- TLV elements ----

  /** Lowest key first; each component, then Any if its entry carries it. */
  function Elements(e: Entries): seq<Element>
  {
    if e == [] then []
    else EntryElements(e[|e| - 1]) + Elements(e[..|e| - 1])
  }

  const ANY_ELEMENT: Element := Blocks.Element(ANY, Some([]), None)

  function EntryElements(entry: Entry): seq<Element>
  {
    (if entry.key.NegInf? then [] else [ComponentElement(entry.key.component)]) +
    (if entry.any then [ANY_ELEMENT] else [])
  }

  function ComponentElement(c: Component): Element
  {
    Blocks.Element(c.typ, Some(c.value), None)
  }

  /** The Component constructor on a parsed element. */
  function ToComponent(e: Element): Option<Component>
  {
    var c := Component(e.typ, if e.value.Some? then e.value.value else []);
    if c.Valid() then Some(c) else None
  }

  /** appendEntry: emplace, so an existing key keeps its flag. */
  function Append(e: Entries, k: Key, any: bool): Entries
  {
    Emplace(e, k, any).0
  }

  datatype Decoded = Decoded(entries: Entries, error: Option<Error>)

  /** The component loop of wireDecode; on an error the entries so far stay. */
  function DecodeLoop(els: seq<Element>, e: Entries): Decoded
    decreases |els|
  {
    if els == [] then Decoded(e, None)
    else match ToComponent(els[0])
      case None => Decoded(e, Some(BadFormat))
      case Some(c) =>
        if |els| > 1 && els[1].typ == ANY then DecodeLoop(els[2..], Append(e, At(c), true))
        else DecodeLoop(els[1..], Append(e, At(c), false))
  }

  function Decode(els: seq<Element>): Decoded
  {
    if els == [] then Decoded([], Some(EmptyExclude))
    else if els[0].typ == ANY then DecodeLoop(els[1..], [Entry(NegInf, true)])
    else DecodeLoop(els, [])
  }

  lemma DecodeLoopUnfolds(els: seq<Element>, i: nat, e: Entries)
    requires i < |els|
    ensures DecodeLoop(els[i..], e) ==
              match ToComponent(els[i])
              case None => Decoded(e, Some(BadFormat))
              case Some(c) =>
                if i + 1 < |els| && els[i + 1].typ == ANY then DecodeLoop(els[i + 2..], Append(e, At(c), true))
                else DecodeLoop(els[i + 1..], Append(e, At(c), false))
  {
    hide Append, ToComponent;
    assert els[i..][1..] == els[i + 1..];
    assert i + 1 < |els| ==> els[i..][2..] == els[i + 2..];
  }

  lemma AppendKeepsValid(e: Entries, k: Key, any: bool)
    requires Valid(e) && (k.NegInf? ==> any)
    ensures Valid(Append(e, k, any))
  {
    var i := LowerBound(e, k);
    if i < |e| {
      AboveIsCanonical(e[i].key, k);
    }
    if Emplace(e, k, any).2 {
      Slices(e, i, i);
      JoinIsValid(e[..i], [Entry(k, any)]);
      JoinIsValid(e[..i] + [Entry(k, any)], e[i..]);
    }
  }

  /** Whatever is decoded, in whatever order, the entries end up sorted. */
  lemma {:induction false} DecodeLoopIsValid(els: seq<Element>, e: Entries)
    requires Valid(e)
    ensures Valid(DecodeLoop(els, e).entries)
    decreases |els|
  {
    if els != [] && ToComponent(els[0]).Some? {
      var k, any := At(ToComponent(els[0]).value), |els| > 1 && els[1].typ == ANY;
      AppendKeepsValid(e, k, any);
      DecodeLoopIsValid(els[if any then 2 else 1..], Append(e, k, any));
    }
  }

  lemma DecodeIsValid(els: seq<Element>)
    ensures Valid(Decode(els).entries)
  {
    if els != [] {
      if els[0].typ == ANY {
        DecodeLoopIsValid(els[1..], [Entry(NegInf, true)]);
      } else {
        DecodeLoopIsValid(els, []);
      }
    }
  }

  /** Any? (NameComponent Any?)*, without the empty sequence: every element is an Any or a component, and
      no two Any are neighbours. A lone Any passes, against the `+` of the documented grammar. */
  predicate Grammar(els: seq<Element>)
  {
    && els != []
    && (forall el <- els :: el.typ == ANY || ToComponent(el).Some?)
    && (forall i :: 0 < i < |els| ==> !(els[i - 1].typ == ANY && els[i].typ == ANY))
  }

  lemma GrammarSplits(els: seq<Element>, n: nat)
    requires 0 < n < |els|
    ensures Grammar(els) <==>
              Grammar(els[..n]) && Grammar(els[n..]) && !(els[n - 1].typ == ANY && els[n].typ == ANY)
  {
    var a, b := els[..n], els[n..];
    assert els == a + b;
    if Grammar(els) {
      forall i | 0 < i < |b|
        ensures !(b[i - 1].typ == ANY && b[i].typ == ANY)
      {
        assert els[n + i - 1] == b[i - 1] && els[n + i] == b[i];
      }
    }
    if Grammar(a) && Grammar(b) && !(els[n - 1].typ == ANY && els[n].typ == ANY) {
      forall i | 0 < i < |els|
        ensures !(els[i - 1].typ == ANY && els[i].typ == ANY)
      {
        if i > n {
          assert els[i - 1] == b[i - n - 1] && els[i] == b[i - n];
        }
      }
    }
  }

  lemma {:induction false} DecodeLoopAccepts(els: seq<Element>, e: Entries)
    ensures DecodeLoop(els, e).error.None? <==> els == [] || (els[0].typ != ANY && Grammar(els))
    decreases |els|
  {
    hide Above;
    if els != [] {
      assert els[0] in els;
      if ToComponent(els[0]).Some? {
        var any := |els| > 1 && els[1].typ == ANY;
        var n := if any then 2 else 1;
        DecodeLoopAccepts(els[n..], Append(e, At(ToComponent(els[0]).value), any));
        assert Grammar(els[..n]);
        if n < |els| {
          GrammarSplits(els, n);
        } else {
          assert els[..n] == els;
        }
      }
    }
  }

  /** Decoding accepts exactly the grammar. */
  lemma DecodeAccepts(els: seq<Element>)
    ensures Decode(els).error.None? <==> Grammar(els)
  {
    if els != [] {
      if els[0].typ == ANY {
        DecodeLoopAccepts(els[1..], [Entry(NegInf, true)]);
        if |els| > 1 {
          GrammarSplits(els, 1);
        }
      } else {
        DecodeLoopAccepts(els, []);
      }
    }
  }

  /** The grammar of the comments: Any? (NameComponent Any?)+ */
  predicate DocumentedGrammar(els: seq<Element>)
  {
    var rest := if els != [] && els[0].typ == ANY then els[1..] else els;
    rest != [] && ComponentsWithAny(rest)
  }

  /** (NameComponent Any?)* */
  predicate ComponentsWithAny(els: seq<Element>)
    decreases |els|
  {
    els == [] ||
    (ToComponent(els[0]).Some? && ComponentsWithAny(els[if |els| > 1 && els[1].typ == ANY then 2 else 1..]))
  }

  lemma {:induction false} ComponentsWithAnyIsLoop(els: seq<Element>, e: Entries)
    ensures ComponentsWithAny(els) <==> DecodeLoop(els, e).error.None?
    decreases |els|
  {
    if els != [] && ToComponent(els[0]).Some? {
      var any := |els| > 1 && els[1].typ == ANY;
      ComponentsWithAnyIsLoop(els[if any then 2 else 1..], Append(e, At(ToComponent(els[0]).value), any));
    }
  }

  /** What is accepted beyond the documented grammar is the lone Any, and nothing else. */
  lemma AcceptedIsDocumentedIff(els: seq<Element>)
    requires Decode(els).error.None?
    ensures DocumentedGrammar(els) <==> !(|els| == 1 && els[0].typ == ANY)
  {
    if els[0].typ == ANY {
      ComponentsWithAnyIsLoop(els[1..], [Entry(NegInf, true)]);
    } else {
      ComponentsWithAnyIsLoop(els, []);
    }
  }

  /** All that is documented is accepted, and so is the lone Any, which excludes everything. */
  lemma DocumentedIsAccepted(els: seq<Element>, x: Component)
    ensures DocumentedGrammar(els) ==> Decode(els).error.None?
    ensures Decode([ANY_ELEMENT]) == Decoded([Entry(NegInf, true)], None)
    ensures !DocumentedGrammar([ANY_ELEMENT]) && IsExcluded([Entry(NegInf, true)], x)
  {
    if els != [] && els[0].typ == ANY {
      ComponentsWithAnyIsLoop(els[1..], [Entry(NegInf, true)]);
    } else {
      ComponentsWithAnyIsLoop(els, []);
    }
    assert [ANY_ELEMENT][1..] == [];
  }

  // ---- round trip ----

  /** Decoding the elements of the upper entries on top of the lower ones. */
  lemma {:induction false} DecodeLoopRebuilds(hi: Entries, lo: Entries)
    requires Valid(hi + lo) && forall i :: 0 <= i < |hi| ==> hi[i].key.At?
    ensures DecodeLoop(Elements(hi), lo) == Decoded(hi + lo, None)
  {
    if hi == [] {
      assert hi + lo == lo;
    } else {
      var n := |hi| - 1;
      var last, rest := hi[n], hi[..n];
      assert hi + lo == rest + ([last] + lo);
      AppendOnTop(hi, lo);
      StartsWithComponent(rest);
      var els := Elements(hi);
      var c := last.key.component;
      assert els[0] == ComponentElement(c) && ToComponent(els[0]) == Some(c);
      if last.any {
        assert EntryElements(last) == [ComponentElement(c), ANY_ELEMENT];
        assert els[2..] == Elements(rest);
      } else {
        assert EntryElements(last) == [ComponentElement(c)];
        assert els[1..] == Elements(rest);
      }
      DecodeLoopRebuilds(rest, [last] + lo);
    }
  }

  lemma AppendOnTop(hi: Entries, lo: Entries)
    requires hi != [] && Valid(hi + lo)
    ensures var last := hi[|hi| - 1]; Append(lo, last.key, last.any) == [last] + lo
  {
    var e, n := hi + lo, |hi| - 1;
    if lo != [] {
      assert e[n] == hi[n] && e[n + 1] == lo[0];
    }
  }

  lemma StartsWithComponent(e: Entries)
    requires forall i :: 0 <= i < |e| ==> e[i].key.At?
    ensures Elements(e) != [] ==> Elements(e)[0].typ != ANY
  {
  }

  /** The element sequence of every non-empty valid map decodes to the same map. */
  lemma DecodeUndoesElements(e: Entries)
    requires Valid(e) && e != []
    ensures Decode(Elements(e)) == Decoded(e, None)
  {
    var n := |e| - 1;
    if e[n].key.NegInf? {
      assert e == e[..n] + [e[n]];
      assert forall i :: 0 <= i < n ==> Above(e[i].key, e[n].key);
      assert Elements(e)[1..] == Elements(e[..n]);
      DecodeLoopRebuilds(e[..n], [e[n]]);
    } else {
      forall i | 0 <= i < |e|
        ensures e[i].key.At?
      {
        assert i < n ==> Above(e[i].key, e[n].key);
      }
      StartsWithComponent(e);
      DecodeLoopRebuilds(e, []);
      assert e + [] == e;
    }
  }

  lemma {:induction false} ElementsFromEntries(e: Entries)
    ensures forall el <- Elements(e) :: el.typ != ANY ==>
              exists k :: 0 <= k < |e| && e[k].key.At? && el == ComponentElement(e[k].key.component)
  {
    if e != [] {
      var n := |e| - 1;
      ElementsFromEntries(e[..n]);
      forall el | el in Elements(e) && el.typ != ANY
        ensures exists k :: 0 <= k < |e| && e[k].key.At? && el == ComponentElement(e[k].key.component)
      {
        if el in Elements(e[..n]) {
          var k :| 0 <= k < n && e[..n][k].key.At? && el == ComponentElement(e[..n][k].key.component);
          assert el == ComponentElement(e[k].key.component);
        } else {
          assert el == ComponentElement(e[n].key.component);
        }
      }
    }
  }

  /** The components are listed in canonical order, lowest first, none twice. */
  lemma {:induction false} ElementsAscend(e: Entries, i: nat, j: nat)
    requires Valid(e) && i < j < |Elements(e)|
    requires Elements(e)[i].typ != ANY && Elements(e)[j].typ != ANY
    ensures var (a, b) := (ToComponent(Elements(e)[i]), ToComponent(Elements(e)[j]));
            a.Some? && b.Some? && Canonical(a.value, b.value) < 0
  {
    var n := |e| - 1;
    var first, rest := EntryElements(e[n]), Elements(e[..n]);
    var x, y := Elements(e)[i], Elements(e)[j];
    if i >= |first| {
      ElementsAscend(e[..n], i - |first|, j - |first|);
    } else {
      ElementsFromEntries(e[..n]);
      assert i == 0 && y == rest[j - |first|];
      var k :| 0 <= k < n && e[..n][k].key.At? && y == ComponentElement(e[..n][k].key.component);
      AboveIsCanonical(e[k].key, e[n].key);
      CanonicalIsTotal(e[n].key.component, e[k].key.component);
      CanonicalIsTotal(e[k].key.component, e[n].key.component);
    }
  }

  /** Which elements are components: generic ones, and digests of 32 octets. */
  lemma ComponentsMean(e: Element)
    ensures ToComponent(e).Some? <==>
              e.typ == 8 || (e.typ == 1 && e.value.Some? && |e.value.value| == 32)
    ensures ToComponent(e).Some? && e.value.Some? ==> ComponentElement(ToComponent(e).value) == e.(wire := None)
  {
  }

  // ---- octets ----

  function Fields(els: seq<Element>): seq<Enc.Field>
    requires forall el <- els :: el.value.Some?
  {
    seq(|els|, i requires 0 <= i < |els| => Enc.Leaf(els[i].typ, els[i].value.value))
  }

  lemma ElementsHaveValues(e: Entries)
    ensures forall el <- Elements(e) :: el.value.Some? && el.wire.None?
  {
  }

  /** What the wireEncode template asks of its encoder. */
  function Description(e: Entries): Enc.Field
  {
    ElementsHaveValues(e);
    Enc.Nested(EXCLUDE, Fields(Elements(e)))
  }

  lemma {:induction false} FieldsAreConcat(els: seq<Element>)
    requires forall el <- els :: el.value.Some? && el.wire.None?
    ensures Enc.WireAll(Fields(els)) == Blocks.Concat(els)
  {
    if els != [] {
      assert Fields(els)[1..] == Fields(els[1..]);
      FieldsAreConcat(els[1..]);
    }
  }

  /** Sizes fit 64 bits, as they do in memory. */
  ghost predicate Fits(e: Entries)
  {
    ElementsHaveValues(e);
    && (forall el <- Elements(e) :: |el.value.value| <= U64_MAX)
    && |Enc.WireAll(Fields(Elements(e)))| <= U64_MAX
  }

  /** Decoding a whole Exclude TLV. */
  function DecodeWire(wire: seq<byte>): Decoded
  {
    match Blocks.FromWhole(wire)
    case Err(_) => Decoded([], Some(UnexpectedType))
    case Ok(block) => if block.typ != EXCLUDE then Decoded([], Some(UnexpectedType)) else DecodeValue(block.value.value)
  }

  function DecodeValue(value: seq<byte>): Decoded
  {
    var parsed := Blocks.Scan(value);
    if parsed.error.Some? then Decoded([], Some(BadFormat)) else Decode(parsed.elements)
  }

  /** What is accepted off the wire: one whole element of the type, its value elements of the grammar. */
  lemma DecodeWireAccepts(wire: seq<byte>)
    ensures DecodeWire(wire).error.None? <==>
              exists value, els ::
                && Blocks.FromWhole(wire) == Ok(Blocks.Element(16, Some(value), Some(wire)))
                && Blocks.Scan(value) == Blocks.Scanned(els, None) && Grammar(els)
  {
    hide Decode, Grammar;
    var r := Blocks.FromWhole(wire);
    if r.Ok? && r.value.typ == EXCLUDE {
      var value := r.value.value.value;
      var parsed := Blocks.Scan(value);
      DecodeAccepts(parsed.elements);
      assert r.value == Blocks.Element(16, Some(value), Some(wire));
      assert parsed.error.None? ==> parsed == Blocks.Scanned(parsed.elements, None);
    }
  }

  lemma {:induction false} DecodeLoopIgnoresWire(a: seq<Element>, b: seq<Element>, e: Entries)
    requires |a| == |b| && forall i :: 0 <= i < |a| ==> a[i].typ == b[i].typ && a[i].value == b[i].value
    ensures DecodeLoop(a, e) == DecodeLoop(b, e)
    decreases |a|
  {
    if a != [] && ToComponent(a[0]).Some? {
      var k, any := At(ToComponent(a[0]).value), |a| > 1 && a[1].typ == ANY;
      var n := if any then 2 else 1;
      DecodeLoopIgnoresWire(a[n..], b[n..], Append(e, k, any));
    }
  }

  /** The value of the Exclude element. */
  function Value(e: Entries): seq<byte>
  {
    ElementsHaveValues(e);
    Enc.WireAll(Fields(Elements(e)))
  }

  lemma ValueRoundTrip(e: Entries)
    requires Valid(e) && e != [] && Fits(e)
    ensures DecodeValue(Value(e)) == Decoded(e, None)
  {
    hide Above;
    var els := Elements(e);
    ElementsHaveValues(e);
    FieldsAreConcat(els);
    Blocks.ScanUndoesConcat(els);
    var parsed := Blocks.Scan(Blocks.Concat(els)).elements;
    DecodeUndoesElements(e);
    if els[0].typ == ANY {
      DecodeLoopIgnoresWire(parsed[1..], els[1..], [Entry(NegInf, true)]);
    } else {
      DecodeLoopIgnoresWire(parsed, els, []);
    }
  }

  /** Exclude wire round trip, down to the octets. */
  lemma WireRoundTrip(e: Entries)
    requires Valid(e) && e != [] && Fits(e)
    ensures DecodeWire(Enc.Wire(Description(e))) == Decoded(e, None)
  {
    hide Above, DecodeValue, Elements;
    ElementsHaveValues(e);
    var value, wire := Value(e), Enc.Wire(Description(e));
    assert wire == Enc.Wire(Enc.Leaf(EXCLUDE, value));
    Blocks.WrittenElementReads(EXCLUDE, value);
    Blocks.FromWholeReads(wire);
    ValueRoundTrip(e);
  }

  lemma NotExcludedIsNew(e: Entries, x: Component)
    requires !IsExcluded(e, x)
    ensures Append(e, At(x), false) == OneResult(e, x)
  {
  }

  lemma RangeFacts(e: Entries, from: Key, to: Component)
    requires Valid(e) && Above(At(to), from)
    ensures Valid(RangeResult(e, from, to))
    ensures forall x :: IsExcluded(RangeResult(e, from, to), x) <==>
              && (IsExcluded(e, x) || InClosedRange(from, to, x))
              && !(CutsShort(e, from, to) && BeyondTo(e, to, x))
    ensures Combined(e) ==> (Combined(RangeResult(e, from, to)) <==> !ClosesRange(e, from))
  {
    RangeIsValid(e, from, to);
    forall x: Component
      ensures IsExcluded(RangeResult(e, from, to), x) <==>
                && (IsExcluded(e, x) || InClosedRange(from, to, x))
                && !(CutsShort(e, from, to) && BeyondTo(e, to, x))
    {
      RangeMeans(e, from, to, x);
    }
    if Combined(e) {
      RangeShape(e, from, to);
    }
  }

  /** Placing `from` does not move the first entry at or below `to`, unless it is `from` itself. */
  lemma PlacedLowerBound(was: Entries, e: Entries, from: Key, to: Component, newFrom: nat)
    requires Valid(was) && Above(At(to), from)
    requires newFrom == LowerBound(was, from) && newFrom < |e|
    requires e[newFrom] == FromHere(was, from)[0] && forall k :: 0 <= k < newFrom ==> e[k] == was[k]
    ensures LowerBound(e, At(to)) == LowerBound(was, At(to)) <= newFrom
    ensures e[newFrom].key != At(to)
  {
    hide Rank;
    LowerBoundIsMonotone(was, from, At(to));
    FromHereIsValid(was, from);
    var j := LowerBound(was, At(to));
    LowerBoundIs(e, At(to), j);
  }

  // ---- Exclude ----

  class Exclude {
    var entries: Entries
    var wire: Option<seq<byte>>

    ghost predicate Valid()
      reads this
    {
      ExcludeMaps.Valid(entries)
    }

    /** The cached wire, if any, stands for the entries. */
    ghost predicate Coherent()
      reads this
    {
      wire.Some? ==> DecodeWire(wire.value) == Decoded(entries, None)
    }

    constructor ()
      ensures Valid() && Coherent() && entries == [] && wire.None?
    {
      entries, wire := [], None;
    }

    method ExcludeOne(x: Component)
      requires Valid()
      modifies this
      ensures Valid() && entries == OneResult(old(entries), x)
      ensures wire == if IsExcluded(old(entries), x) then old(wire) else None
      ensures forall y :: IsExcluded(entries, y) <==> IsExcluded(old(entries), y) || y == x
      ensures old(Combined(entries)) ==> Combined(entries)
    {
      OneKeepsShape(entries, x);
      forall y: Component
        ensures IsExcluded(OneResult(entries, x), y) <==> IsExcluded(entries, y) || y == x
      {
        OneIsUnion(entries, x, y);
      }
      if !IsExcluded(entries, x) {
        NotExcludedIsNew(entries, x);
        entries := Append(entries, At(x), false);
        wire := None;
      }
    }

    /** newFrom: the covering entry with ANY, or a fresh or updated one. */
    method PlaceFrom(from: Key) returns (newFrom: nat)
      requires Valid()
      modifies this`entries
      ensures newFrom < |entries| && entries[newFrom..] == FromHere(old(entries), from)
      ensures newFrom == LowerBound(old(entries), from) && entries[..newFrom] == old(entries)[..newFrom]
    {
      hide Above;
      newFrom := LowerBound(entries, from);
      if newFrom == |entries| || !entries[newFrom].any {
        ghost var was, i := entries, newFrom;
        var (e, pos, isNewEntry) := Emplace(entries, from, true);
        entries, newFrom := e, pos;
        if isNewEntry {
          assert e[i..] == [Entry(from, true)] + was[i..];
        } else {
          entries := entries[newFrom := Entry(from, true)];
          assert entries[i..] == [Entry(from, true)] + was[i + 1..];
        }
      }
    }

    /** newTo: the entry that already goes past `to`, or one behind `to` itself; then everything from
        there to newFrom is erased. */
    method EraseBetween(to: Component, newFrom: nat)
      requires newFrom < |entries| && entries[newFrom].key != At(to)
      requires LowerBound(entries, At(to)) <= newFrom
      modifies this`entries
      ensures var j := LowerBound(old(entries), At(to));
              var t := if j < newFrom && old(entries)[j].any then [] else [Entry(At(to), false)];
              entries == old(entries)[..j] + t + old(entries)[newFrom..]
    {
      hide Above;
      var newTo := LowerBound(entries, At(to));
      var erasedTo := newFrom;
      if newTo == newFrom || !entries[newTo].any {
        ghost var was, j := entries, newTo;
        var (e, pos, isNewEntry) := Emplace(entries, At(to), false);
        if isNewEntry {
          erasedTo := erasedTo + 1;  // iterators survive the insertion
        }
        entries, newTo := e, pos;
        newTo := newTo + 1;
        assert entries[..newTo] == was[..j] + [Entry(At(to), false)];
        assert entries[erasedTo..] == was[newFrom..];
      }
      entries := entries[..newTo] + entries[erasedTo..];
    }

    method Splice(from: Key, to: Component)
      requires Valid() && Above(At(to), from)
      modifies this`entries
      ensures entries == RangeResult(old(entries), from, to)
    {
      ghost var was := entries;
      var newFrom := PlaceFrom(from);
      ghost var e := entries;
      assert e[newFrom] == e[newFrom..][0];
      forall k | 0 <= k < newFrom
        ensures e[k] == was[k]
      {
        assert e[..newFrom][k] == was[..newFrom][k];
      }
      PlacedLowerBound(was, e, from, to, newFrom);
      assert e[..LowerBound(was, At(to))] == was[..LowerBound(was, At(to))];
      EraseBetween(to, newFrom);
    }

    /** The private excludeRange; its positions are the iterators of the source. */
    method ExcludeRangeFrom(from: Key, to: Component) returns (error: Option<Error>)
      requires Valid()
      modifies this
      ensures Valid()
      ensures error.Some? <==> !Above(At(to), from)
      ensures error.Some? ==> error.value == InvalidRange && entries == old(entries) && wire == old(wire)
      ensures error.None? ==> entries == RangeResult(old(entries), from, to) && wire.None?
      ensures error.None? ==> forall x ::
                IsExcluded(entries, x) <==>
                  && (IsExcluded(old(entries), x) || InClosedRange(from, to, x))
                  && !(CutsShort(old(entries), from, to) && BeyondTo(old(entries), to, x))
      ensures error.None? && old(Combined(entries)) ==> (Combined(entries) <==> !ClosesRange(old(entries), from))
    {
      if from.At? && !Above(At(to), from) {
        return Some(InvalidRange);
      }
      RangeFacts(entries, from, to);
      Splice(from, to);
      wire := None;
      error := None;
    }

    method ExcludeRange(from: Component, to: Component) returns (error: Option<Error>)
      requires Valid()
      modifies this
      ensures Valid()
      ensures error.Some? <==> Rank(to) <= Rank(from)
      ensures error.Some? ==> error.value == InvalidRange && entries == old(entries) && wire == old(wire)
      ensures error.None? ==> entries == RangeResult(old(entries), At(from), to) && wire.None?
    {
      error := ExcludeRangeFrom(At(from), to);
    }

    method ExcludeBefore(to: Component)
      requires Valid()
      modifies this
      ensures Valid() && entries == RangeResult(old(entries), NegInf, to) && wire.None?
      ensures old(Combined(entries)) ==> Combined(entries)
    {
      if Combined(entries) {
        RangeShape(entries, NegInf, to);
      }
      var _ := ExcludeRangeFrom(NegInf, to);
    }

    method ExcludeAfter(from: Component)
      requires Valid()
      modifies this
      ensures Valid() && entries == FromHere(old(entries), At(from)) && wire.None?
      ensures forall x :: IsExcluded(entries, x) <==> IsExcluded(old(entries), x) || !Above(At(from), At(x))
      ensures old(Combined(entries)) ==> (Combined(entries) <==> !ClosesRange(old(entries), At(from)))
    {
      ghost var was := entries;
      forall x: Component
        ensures IsExcluded(FromHere(was, At(from)), x) <==> IsExcluded(was, x) || !Above(At(from), At(x))
      {
        AfterIsUnion(was, from, x);
      }
      AfterIsUnion(was, from, from);
      if Combined(was) {
        FromHereShape(was, At(from));
      }
      var newFrom := PlaceFrom(At(from));
      entries := entries[newFrom..];
      wire := None;
    }

    method Clear()
      modifies this
      ensures Valid() && Coherent() && entries == [] && wire.None?
    {
      entries, wire := [], None;
    }

    /** A cached wire is returned as it is. */
    method WireEncode() returns (r: Result<seq<byte>, Error>)
      requires Valid()
      modifies this`wire
      ensures old(wire).Some? ==> r == Ok(old(wire).value) && wire == old(wire)
      ensures old(wire).None? && entries == [] ==> r == Err(EmptyExclude) && wire.None?
      ensures old(wire).None? && entries != [] ==> r == Ok(Enc.Wire(Description(entries))) && wire == Some(r.value)
      ensures old(Coherent()) && Fits(entries) ==> Coherent()
    {
      if wire.Some? {
        return Ok(wire.value);
      }
      if entries == [] {
        return Err(EmptyExclude);
      }
      var encoder, buffer := Enc.EncodeTight(Description(entries));
      wire := Some(buffer[..]);
      if Fits(entries) {
        WireRoundTrip(entries);
      }
      return Ok(buffer[..]);
    }

    /** On success the entries are those decoded and the wire is kept for encoding; a rejected wire of the
        right type is kept as well, next to the entries read before the error. */
    method WireDecode(block: Element) returns (error: Option<Error>)
      requires block.wire.Some? && Blocks.FromWhole(block.wire.value) == Ok(block)
      modifies this
      ensures Valid()
      ensures error == DecodeWire(block.wire.value).error && entries == DecodeWire(block.wire.value).entries
      ensures wire == if block.typ == EXCLUDE then block.wire else None
      ensures error.None? ==> Coherent()
    {
      hide Above;
      Clear();
      if block.typ != EXCLUDE {
        return Some(UnexpectedType);
      }
      wire := block.wire;
      var parsed := Blocks.Scan(block.value.value);
      if parsed.error.Some? {
        return Some(BadFormat);
      }
      var els := parsed.elements;
      if els == [] {
        return Some(EmptyExclude);
      }
      DecodeIsValid(els);
      var i := 0;
      if els[0].typ == ANY {
        entries := Append(entries, NegInf, true);
        assert entries == [Entry(NegInf, true)];
        i := 1;
      }
      assert els[0..] == els;
      hide Decode, Append, ToComponent, Blocks.Scan, Blocks.FromWhole;
      while i < |els|
        invariant i <= |els|
        invariant wire == block.wire
        invariant DecodeLoop(els[i..], entries) == Decode(els)
        decreases |els| - i
      {
        var component := ToComponent(els[i]);
        DecodeLoopUnfolds(els, i, entries);
        if component.None? {
          return Some(BadFormat);
        }
        i := i + 1;
        if i < |els| && els[i].typ == ANY {
          entries := Append(entries, At(component.value), true);
          i := i + 1;
        } else {
          entries := Append(entries, At(component.value), false);
        }
      }
      return None;
    }
  }
}
