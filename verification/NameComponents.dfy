/** Name components: canonical order, successor, numbers (src/name-component.cpp). */
module NameComponents {
  import opened Results
  import opened Octets
  import opened Tlv
  import Enc = Encoding
  import Blocks

  const DIGEST_SIZE: nat := 32

  /** Type and value, which is all that `equals` looks at. */
  datatype AnyComponent = Component(typ: nat, value: seq<byte>) {
    /** What the constructor from a Block accepts. */
    predicate Valid()
    {
      typ == NAME_COMPONENT || (typ == IMPLICIT_SHA256_DIGEST_COMPONENT && |value| == DIGEST_SIZE)
    }

    predicate IsDigest()
    {
      typ == IMPLICIT_SHA256_DIGEST_COMPONENT && |value| == DIGEST_SIZE
    }

    /** The shortest encoding. */
    function Minimal(): seq<byte>
    {
      Enc.Wire(Enc.Leaf(typ, value))
    }
  }

  type Component = c: AnyComponent | c.Valid() witness Component(NAME_COMPONENT, [])

  const MAX_DIGEST: seq<byte> := seq(DIGEST_SIZE, _ => 0xFF)

  /** A component as a Block holds it: default-constructed, value only, or with some wire. */
  datatype Stored = Default | ValueOnly(component: Component) | Wired(component: Component, wire: seq<byte>) {
    function Content(): Component
    {
      if Default? then Component(NAME_COMPONENT, []) else component
    }

    /** The wire encodes the component, not necessarily in the shortest way; sizes fit a size_t. */
    ghost predicate WellFormed()
    {
      && |Content().value| < U64_MAX
      && (Wired? ==> Blocks.ReadElement(wire)
                     == Ok(Blocks.Element(component.typ, Some(component.value), Some(wire))))
    }

    ghost predicate HasMinimalWire()
    {
      Wired? ==> wire == component.Minimal()
    }
  }

  // ---- canonical order ----

  /** Canonical order as the NDN Packet Format Specification puts it: type, length, then octets. */
  function Canonical(a: AnyComponent, b: AnyComponent): int
  {
    if a.typ != b.typ then a.typ - b.typ
    else if |a.value| != |b.value| then |a.value| - |b.value|
    else Memcmp(a.value, b.value, |a.value|)
  }

  /** The same order on the numbers the values spell. */
  predicate Less(a: AnyComponent, b: AnyComponent)
  {
    a.typ < b.typ || (a.typ == b.typ &&
      (|a.value| < |b.value| || (|a.value| == |b.value| && FromBigEndian(a.value) < FromBigEndian(b.value))))
  }

  lemma CanonicalIsTotal(a: AnyComponent, b: AnyComponent)
    ensures Canonical(a, b) < 0 <==> Less(a, b)
    ensures Canonical(a, b) > 0 <==> Less(b, a)
    ensures Canonical(a, b) == 0 <==> a == b
  {
    if a.typ == b.typ && |a.value| == |b.value| {
      MemcmpIsNumeric(a.value, b.value);
      if FromBigEndian(a.value) == FromBigEndian(b.value) {
        FromBigEndianInjective(a.value, b.value);
      }
    }
  }

  // ---- rank ----

  /** How many octet strings are shorter than `length`. */
  function Shorter(length: nat): nat
  {
    if length == 0 then 0 else Shorter(length - 1) + Pow256(length - 1)
  }

  /** The position of a component in canonical order, the empty generic component being 0: generic
      components count up by length and value, digests count down from -1. */
  function Rank(c: Component): int
  {
    if c.typ == IMPLICIT_SHA256_DIGEST_COMPONENT then FromBigEndian(c.value) - Pow256(|c.value|)
    else Shorter(|c.value|) + FromBigEndian(c.value)
  }

  lemma {:induction false} ShorterIsMonotone(j: nat, k: nat)
    requires j < k
    ensures Shorter(j) + Pow256(j) <= Shorter(k)
    decreases k
  {
    if j < k - 1 {
      ShorterIsMonotone(j, k - 1);
    }
  }

  lemma RankAcrossLengths(a: Component, b: Component)
    requires a.typ == b.typ == NAME_COMPONENT && |a.value| < |b.value|
    ensures Rank(a) < Rank(b)
  {
    ToFromBigEndian(a.value);
    ShorterIsMonotone(|a.value|, |b.value|);
  }

  lemma RankAcrossTypes(a: Component, b: Component)
    requires a.typ < b.typ
    ensures Rank(a) < Rank(b)
  {
    ToFromBigEndian(a.value);
  }

  /** Canonical order on components is the order of their ranks. */
  lemma RankIsCanonical(a: Component, b: Component)
    ensures Rank(a) < Rank(b) <==> Canonical(a, b) < 0
    ensures Rank(a) == Rank(b) <==> a == b
  {
    CanonicalIsTotal(a, b);
    if a.typ < b.typ {
      RankAcrossTypes(a, b);
    } else if b.typ < a.typ {
      RankAcrossTypes(b, a);
    } else if |a.value| < |b.value| {
      RankAcrossLengths(a, b);
    } else if |b.value| < |a.value| {
      RankAcrossLengths(b, a);
    }
  }

  /** Conversion of a 64-bit difference to `int`. */
  function Int32(x: int): int
  {
    var m := x % 0x1_0000_0000;
    if m < 0x8000_0000 then m else m - 0x1_0000_0000
  }

  /** The branch of `compare` without two wires. */
  function CompareFields(a: Component, b: Component): int
  {
    var cmpType := a.typ - b.typ;
    if cmpType != 0 then cmpType
    else
      var cmpSize := Int32(|a.value| - |b.value|);
      if cmpSize != 0 then cmpSize
      else if |a.value| != |b.value| then 0  // sizes 2^32 apart; memcmp would overrun
      else Memcmp(a.value, b.value, |a.value|)
  }

  /** Component::compare. */
  function Compare(a: Stored, b: Stored): int
  {
    if a.Wired? && b.Wired? then
      Memcmp(a.wire, b.wire, if |a.wire| < |b.wire| then |a.wire| else |b.wire|)
    else
      CompareFields(a.Content(), b.Content())
  }

  /** Comparing two buffers that begin with a VAR-NUMBER: the number of octets it takes decides first,
      then the number, then what follows. */
  lemma VarNumberOrder(s: seq<byte>, t: seq<byte>, n: nat)
    requires ReadVarNumber(s).ok && ReadVarNumber(t).ok
    requires n <= |s| && n <= |t|
    requires ReadVarNumber(s).consumed <= n || ReadVarNumber(t).consumed <= n
    ensures var p, q := ReadVarNumber(s), ReadVarNumber(t);
            if p.consumed != q.consumed then n > 0 && Sign(Memcmp(s, t, n)) == Sign(p.consumed - q.consumed)
            else if p.number != q.number then Sign(Memcmp(s, t, n)) == Sign(p.number - q.number)
            else p.consumed <= n && Memcmp(s, t, n) == Memcmp(s[p.consumed..], t[p.consumed..], n - p.consumed)
  {
    var p, q := ReadVarNumber(s), ReadVarNumber(t);
    if p.consumed == q.consumed {
      var c := p.consumed;
      var a, b := s[..c], t[..c];
      assert s == a + s[c..] && t == b + t[c..];
      MemcmpConcat(a, s[c..], b, t[c..], n);
      if c == 1 {
        assert Memcmp(a, b, 1) == (a[0] as int) - (b[0] as int);
      } else {
        assert a[1..] == s[1..c] && b[1..] == t[1..c];
        MemcmpIsNumeric(s[1..c], t[1..c]);
        assert Memcmp(a, b, c) == Memcmp(a[1..], b[1..], c - 1);
        if p.number == q.number {
          FromBigEndianInjective(s[1..c], t[1..c]);
        }
      }
    }
  }

  /** What the wire comparison really orders by, whatever the encodings: octets of the type, type,
      octets of the length, length, value. */
  function WireOrder(v: seq<byte>, w: seq<byte>): int
    requires Blocks.ReadElement(v).Ok? && Blocks.ReadElement(w).Ok?
  {
    var (tv, tw) := (ReadVarNumber(v), ReadVarNumber(w));
    if tv.consumed != tw.consumed then tv.consumed - tw.consumed
    else if tv.number != tw.number then tv.number - tw.number
    else
      var (lv, lw) := (ReadVarNumber(v[tv.consumed..]), ReadVarNumber(w[tw.consumed..]));
      if lv.consumed != lw.consumed then lv.consumed - lw.consumed
      else if lv.number != lw.number then lv.number - lw.number
      else
        var (a, b) := (Blocks.ReadElement(v).value.value.value, Blocks.ReadElement(w).value.value.value);
        if |a| == |b| then Memcmp(a, b, |a|) else 0
  }

  lemma WireComparison(a: Stored, b: Stored)
    requires a.Wired? && b.Wired? && a.WellFormed() && b.WellFormed()
    ensures Sign(Compare(a, b)) == Sign(WireOrder(a.wire, b.wire))
  {
    var v, w := a.wire, b.wire;
    var n := if |v| < |w| then |v| else |w|;
    var tv, tw := ReadVarNumber(v), ReadVarNumber(w);
    WrittenFormIsShortest(v);
    WrittenFormIsShortest(w);
    VarNumberOrder(v, w, n);
    if tv.consumed == tw.consumed && tv.number == tw.number {
      LengthAndValueOrder(v, w, n);
    }
  }

  lemma LengthAndValueOrder(v: seq<byte>, w: seq<byte>, n: nat)
    requires Blocks.ReadElement(v).Ok? && Blocks.ReadElement(w).Ok?
    requires Blocks.ReadElement(v).value.wire == Some(v) && Blocks.ReadElement(w).value.wire == Some(w)
    requires ReadVarNumber(v).consumed == ReadVarNumber(w).consumed <= n
    requires ReadVarNumber(v).number == ReadVarNumber(w).number
    requires n == if |v| < |w| then |v| else |w|
    ensures var c := ReadVarNumber(v).consumed;
            Sign(Memcmp(v[c..], w[c..], n - c)) == Sign(WireOrder(v, w))
  {
    hide FromBigEndian;
    var c := ReadVarNumber(v).consumed;
    var v1, w1 := v[c..], w[c..];
    var lv, lw := ReadVarNumber(v1), ReadVarNumber(w1);
    WrittenFormIsShortest(v1);
    WrittenFormIsShortest(w1);
    WireEnds(v);
    WireEnds(w);
    VarNumberOrder(v1, w1, n - c);
  }

  /** A wire ends where its value does. */
  lemma WireEnds(v: seq<byte>)
    requires Blocks.ReadElement(v).Ok? && Blocks.ReadElement(v).value.wire == Some(v)
    ensures var c := ReadVarNumber(v).consumed;
            && c <= |v| && ReadVarNumber(v[c..]).ok
            && var l := ReadVarNumber(v[c..]);
               && l.consumed <= |v[c..]|
               && |v| == c + l.consumed + l.number
               && Blocks.ReadElement(v).value.value.value == v[c..][l.consumed..]
  {
    var h := Blocks.ReadHead(v).value;
    Blocks.HeadIsLocal(v, []);
    var c := ReadVarNumber(v).consumed;
    WrittenFormIsShortest(v);
    WrittenFormIsShortest(v[c..]);
    assert |v[..h.size + h.length]| == |v|;
    assert v[h.size..h.size + h.length] == v[h.size..] == v[c..][h.size - c..];
  }

  /** On shortest encodings that order is the canonical one. */
  lemma MinimalWireOrder(a: Component, b: Component)
    requires |a.value| <= U64_MAX && |b.value| <= U64_MAX
    ensures Blocks.ReadElement(a.Minimal()).Ok? && Blocks.ReadElement(b.Minimal()).Ok?
    ensures Sign(WireOrder(a.Minimal(), b.Minimal())) == Sign(Canonical(a, b))
  {
    MinimalHeader(a);
    MinimalHeader(b);
  }

  lemma MinimalHeader(c: Component)
    requires |c.value| <= U64_MAX
    ensures var w := c.Minimal();
            && Blocks.ReadElement(w) == Ok(Blocks.Element(c.typ, Some(c.value), Some(w)))
            && ReadVarNumber(w) == VarNumber(true, c.typ, SizeOfVarNumber(c.typ))
            && ReadVarNumber(w[SizeOfVarNumber(c.typ)..]) == VarNumber(true, |c.value|, SizeOfVarNumber(|c.value|))
  {
    hide FromBigEndian, ToBigEndian;
    Blocks.WrittenElementReads(c.typ, c.value);
    var tail := WriteVarNumber(|c.value|) + c.value;
    assert c.Minimal() == WriteVarNumber(c.typ) + tail;
    VarNumberRoundTrip(c.typ, tail);
    assert c.Minimal()[SizeOfVarNumber(c.typ)..] == tail;
    VarNumberRoundTrip(|c.value|, c.value);
  }

  /** `compare` is one total order, the canonical one, across any mix of wire and non-wire components
      whose wires are shortest encodings; its int conversion needs sizes less than 2^31 apart. */
  lemma CompareIsCanonical(a: Stored, b: Stored)
    requires a.WellFormed() && b.WellFormed() && a.HasMinimalWire() && b.HasMinimalWire()
    requires (a.Wired? && b.Wired?) || -0x8000_0000 <= |a.Content().value| - |b.Content().value| < 0x8000_0000
    ensures Sign(Compare(a, b)) == Sign(Canonical(a.Content(), b.Content()))
    ensures Compare(a, b) == 0 <==> a.Content() == b.Content()
    ensures Compare(a, b) < 0 <==> Less(a.Content(), b.Content())
  {
    hide FromBigEndian, Memcmp;
    CanonicalIsTotal(a.Content(), b.Content());
    if a.Wired? && b.Wired? {
      WireComparison(a, b);
      MinimalWireOrder(a.component, b.component);
    }
  }

  /** A wire compares canonically with every shortest wire exactly when it is a shortest encoding itself. */
  lemma WireIsCanonicalIffMinimal(a: Stored)
    requires a.Wired? && a.WellFormed()
    ensures a.HasMinimalWire() <==>
              forall b: Stored :: b.Wired? && b.WellFormed() && b.HasMinimalWire() ==>
                Sign(Compare(a, b)) == Sign(Canonical(a.component, b.component))
  {
    hide Compare, Canonical, Blocks.ReadElement;
    if a.HasMinimalWire() {
      forall b: Stored | b.Wired? && b.WellFormed() && b.HasMinimalWire()
        ensures Sign(Compare(a, b)) == Sign(Canonical(a.component, b.component))
      {
        CompareIsCanonical(a, b);
      }
    } else {
      var b := Wired(a.component, a.component.Minimal());
      MinimalHeader(a.component);
      assert b.WellFormed();
      LongerWireComesAfter(a, b);
      CanonicalIsTotal(a.component, b.component);
    }
  }

  lemma LongerWireComesAfter(a: Stored, b: Stored)
    requires a.Wired? && a.WellFormed() && !a.HasMinimalWire()
    requires b == Wired(a.component, a.component.Minimal()) && b.WellFormed()
    ensures Compare(a, b) > 0
  {
    hide Compare, WireOrder, Blocks.ReadElement;
    WireComparison(a, b);
    LongerInWireOrder(a.wire, a.component);
  }

  lemma LongerInWireOrder(w: seq<byte>, c: Component)
    requires |c.value| <= U64_MAX && w != c.Minimal()
    requires Blocks.ReadElement(w) == Ok(Blocks.Element(c.typ, Some(c.value), Some(w)))
    ensures Blocks.ReadElement(c.Minimal()).Ok? && WireOrder(w, c.Minimal()) > 0
  {
    hide FromBigEndian, ToBigEndian, WriteVarNumber, ReadVarNumber, SizeOfVarNumber;
    MinimalHeader(c);
    WireEnds(w);
    WrittenFormIsShortest(w);
    var k := ReadVarNumber(w).consumed;
    WrittenFormIsShortest(w[k..]);
    var l := ReadVarNumber(w[k..]).consumed;
    assert w == (w[..k] + w[k..][..l]) + w[k..][l..];
  }

  /** Without two wires, components of one type compare canonically exactly when the difference of their
      sizes keeps its sign as an `int`. */
  lemma FieldsAreCanonicalIff(a: Component, b: Component)
    ensures Sign(CompareFields(a, b)) == Sign(Canonical(a, b)) <==>
              var d := |a.value| - |b.value|; a.typ != b.typ || Sign(Int32(d)) == Sign(d)
  {
    hide Memcmp;
  }

  /** Shortest wire, if any, and a size that fits an `int`. */
  ghost predicate Plain(c: Stored)
  {
    c.WellFormed() && c.HasMinimalWire() && |c.Content().value| < 0x8000_0000
  }

  /** So sorted containers may mix components with and without wires. */
  lemma CompareIsTransitive(a: Stored, b: Stored, c: Stored)
    requires Plain(a) && Plain(b) && Plain(c)
    requires Compare(a, b) <= 0 && Compare(b, c) <= 0
    ensures Compare(a, c) <= 0 && (Compare(a, c) == 0 ==> Compare(a, b) == 0 && Compare(b, c) == 0)
    ensures Sign(Compare(b, a)) == -Sign(Compare(a, b))
  {
    hide Compare, Canonical, Rank, Less;
    CompareIsCanonical(a, b);
    CompareIsCanonical(b, c);
    CompareIsCanonical(a, c);
    CompareIsCanonical(b, a);
    RankIsCanonical(a.Content(), b.Content());
    RankIsCanonical(b.Content(), c.Content());
    RankIsCanonical(a.Content(), c.Content());
    RankIsCanonical(b.Content(), a.Content());
  }

  const EMPTY: Component := Component(NAME_COMPONENT, [])
  const HUGE: Component := Component(NAME_COMPONENT, seq(0x8000_0000, _ => 0))

  /** "b" with its length in three octets, and "aa". */
  const LONG_B: Stored := Wired(Component(NAME_COMPONENT, [98]), [8, 253, 0, 1, 98])
  const SHORT_AA: Stored := Wired(Component(NAME_COMPONENT, [97, 97]), [8, 2, 97, 97])

  /** Where `compare` leaves the canonical order: a longer length field outranks a longer value, and a
      size difference of 2^31 changes sign. */
  lemma CompareDeviates()
    ensures LONG_B.WellFormed() && SHORT_AA.WellFormed()
    ensures Less(LONG_B.component, SHORT_AA.component) && Compare(LONG_B, SHORT_AA) > 0
    ensures Less(EMPTY, HUGE) && Compare(ValueOnly(EMPTY), ValueOnly(HUGE)) < 0
    ensures Less(EMPTY, HUGE) && Compare(ValueOnly(HUGE), ValueOnly(EMPTY)) < 0
  {
    var v, w := LONG_B.wire, SHORT_AA.wire;
    assert v[1..] == [253, 0, 1, 98] && w[1..] == [2, 97, 97];
    assert v[1..][1..3] == [0, 1];
    assert FromBigEndian([0, 1]) == 1 by {
      assert [0, 1][..1] == [0];
      assert FromBigEndian([0]) == 0 by { assert [0][..0] == []; }
    }
    assert v[4..5] == [98] && v[..5] == v && w[2..4] == [97, 97] && w[..4] == w;
    assert Blocks.ReadHead(v) == Ok(Blocks.Head(8, 1, 4));
    assert Blocks.ReadHead(w) == Ok(Blocks.Head(8, 2, 2));
    assert Memcmp(v[1..], w[1..], 3) == 251;
  }

  // ---- successor ----

  /** The next octet string of the same length, or the first longer one. */
  function NextValue(v: seq<byte>): seq<byte>
  {
    var next := FromBigEndian(v) + 1;
    if next < Pow256(|v|) then ToBigEndian(next, |v|) else ToBigEndian(0, |v| + 1)
  }

  /** The next value in canonical order among components of one type. */
  function Successor(c: AnyComponent): AnyComponent
  {
    c.(value := NextValue(c.value))
  }

  /** Nothing lies between a component and its successor; the successor of the all-0xFF digest is not a
      component, and every other successor is. */
  lemma SuccessorIsImmediate(c: Component, d: Component)
    ensures Less(c, Successor(c))
    ensures !(Less(c, d) && Less(d, Successor(c)))
    ensures Successor(c).Valid() <==> c != Component(IMPLICIT_SHA256_DIGEST_COMPONENT, MAX_DIGEST)
  {
    hide FromBigEndian, ToBigEndian;
    var n := FromBigEndian(c.value);
    ToFromBigEndian(c.value);
    ToFromBigEndian(d.value);
    FromToBigEndian(0, |c.value| + 1);
    if n + 1 < Pow256(|c.value|) {
      FromToBigEndian(n + 1, |c.value|);
    }
    MaxIsAllOnes(c.value);
  }

  /** The component of the next rank: past the largest digest come the generic ones. */
  function Next(c: Component): Component
  {
    SuccessorIsImmediate(c, c);
    if Successor(c).Valid() then Successor(c) else Component(NAME_COMPONENT, [])
  }

  lemma NextRank(c: Component)
    ensures Rank(Next(c)) == Rank(c) + 1
  {
    hide FromBigEndian, ToBigEndian;
    var n := FromBigEndian(c.value);
    EmptyNumber();
    ToFromBigEndian(c.value);
    SuccessorIsImmediate(c, c);
    if n + 1 < Pow256(|c.value|) {
      FromToBigEndian(n + 1, |c.value|);
    } else {
      FromToBigEndian(0, |c.value| + 1);
    }
  }

  lemma {:induction false} MaxIsAllOnes(v: seq<byte>)
    ensures FromBigEndian(v) + 1 == Pow256(|v|) <==> v == seq(|v|, _ => 0xFF)
  {
    if v == [] {
      assert v == seq(0, _ => 0xFF);
    } else {
      var k := |v| - 1;
      MaxIsAllOnes(v[..k]);
      ToFromBigEndian(v[..k]);
      var ones: seq<byte> := seq(|v|, _ => 0xFF);
      assert ones[..k] == seq(k, _ => 0xFF) && ones[k] == 0xFF;
      assert v == v[..k] + [v[k]] && ones == ones[..k] + [0xFF];
    }
  }

  lemma {:induction false} FromBigEndianConcat(a: seq<byte>, b: seq<byte>)
    ensures FromBigEndian(a + b) == FromBigEndian(a) * Pow256(|b|) + FromBigEndian(b)
  {
    if b == [] {
      assert a + b == a;
    } else {
      var k := |b| - 1;
      assert (a + b)[..|a + b| - 1] == a + b[..k];
      assert (a + b)[|a + b| - 1] == b[k];
      FromBigEndianConcat(a, b[..k]);
      ScaleBy256(FromBigEndian(a), Pow256(k), FromBigEndian(b[..k]));
    }
  }

  lemma ScaleBy256(x: nat, p: nat, y: nat)
    ensures 256 * (x * p + y) == x * (256 * p) + 256 * y
  {
  }

  /** Adding to a tail adds to the whole. */
  lemma TailIncrement(a: seq<byte>, x: seq<byte>, y: seq<byte>)
    requires |x| == |y| && FromBigEndian(y) == FromBigEndian(x) + 1
    ensures FromBigEndian(a + y) == FromBigEndian(a + x) + 1
  {
    FromBigEndianConcat(a, x);
    FromBigEndianConcat(a, y);
  }

  /** Component::getSuccessor. */
  method GetSuccessor(c: Stored) returns (r: Result<Component, Blocks.Error>)
    requires c.WellFormed()
    ensures r == if c.Default? then Err(Blocks.NoBuffer)
                 else if Successor(c.component).Valid() then Ok(Successor(c.component))
                 else Err(Blocks.TlvError)
  {
    if c.Default? {
      return Err(Blocks.NoBuffer);  // size() is undefined
    }
    hide NextValue, Enc.Wire, WriteVarNumber;
    var typ := c.component.typ;
    var size := if c.Wired? then |c.wire| else |c.component.Minimal()|;
    var encoder := new Enc.Encoder(size + 1, 1);
    var totalLength := EncodeSuccessorValue(c.component.value, encoder);
    ghost var value := encoder.Contents();
    var _ := encoder.PrependHeader(typ, totalLength);
    var wire := encoder.buffer[encoder.begin..encoder.end];
    assert wire == Enc.Wire(Enc.Leaf(typ, value)) by {
      assert Enc.Header(typ, |value|) + value == Enc.Wire(Enc.Leaf(typ, value));
    }
    Blocks.WrittenElementReads(typ, value);
    Blocks.FromWholeReads(wire);
    var block := Blocks.FromWhole(wire);
    var component := Component(block.value.typ, block.value.value.value);
    return if component.Valid() then Ok(component) else Err(Blocks.TlvError);
  }

  /** The carrying loop, from the last octet into a double-ended encoder. */
  method EncodeSuccessorValue(v: seq<byte>, encoder: Enc.Encoder) returns (totalLength: nat)
    requires encoder.Valid() && encoder.Contents() == []
    modifies encoder, encoder.buffer
    ensures encoder.Valid() && (encoder.buffer == old(encoder.buffer) || fresh(encoder.buffer))
    ensures encoder.Contents() == NextValue(v)
    ensures totalLength == |encoder.Contents()|
  {
    hide ToBigEndian, FromBigEndian, Pow256, NextValue;
    var i, isOverflow;
    totalLength, i, isOverflow := EncodeIncrementedTail(v, encoder);
    ghost var carried := encoder.Contents();
    var k := encoder.PrependByteArray(v[..i]);
    totalLength := totalLength + k;
    if isOverflow {
      k := encoder.AppendByte(0);
      totalLength := totalLength + k;
    }
    SuccessorValue(v, i, carried, isOverflow, encoder.Contents());
  }

  /** Its loop: the octets from `i` on, plus one, unless all of them overflow. */
  method EncodeIncrementedTail(v: seq<byte>, encoder: Enc.Encoder)
      returns (totalLength: nat, i: nat, isOverflow: bool)
    requires encoder.Valid() && encoder.Contents() == []
    modifies encoder, encoder.buffer
    ensures encoder.Valid() && (encoder.buffer == old(encoder.buffer) || fresh(encoder.buffer))
    ensures i <= |v| && totalLength == |encoder.Contents()| == |v| - i && (isOverflow ==> i == 0)
    ensures isOverflow ==> encoder.Contents() == ToBigEndian(0, |v|) && FromBigEndian(v) + 1 == Pow256(|v|)
    ensures !isOverflow ==> FromBigEndian(encoder.Contents()) == FromBigEndian(v[i..]) + 1
  {
    hide ToBigEndian, FromBigEndian, Pow256;
    isOverflow, i, totalLength := true, |v|, 0;
    EmptyNumber();
    assert v[i..] == [];
    while isOverflow && i > 0
      invariant 0 <= i <= |v| && encoder.Valid()
      invariant encoder.buffer == old(encoder.buffer) || fresh(encoder.buffer)
      invariant totalLength == |encoder.Contents()| == |v| - i
      invariant isOverflow ==> encoder.Contents() == ToBigEndian(0, |v| - i)
      invariant isOverflow ==> FromBigEndian(v[i..]) + 1 == Pow256(|v| - i)
      invariant !isOverflow ==> FromBigEndian(encoder.Contents()) == FromBigEndian(v[i..]) + 1
    {
      ghost var was := encoder.Contents();
      var newValue := (v[i - 1] as int + 1) % 256;
      var k := encoder.PrependByte(newValue);
      totalLength := totalLength + k;
      isOverflow := newValue == 0;
      i := i - 1;
      CarryStep(v, i, was, newValue);
    }
    assert v[0..] == v;
  }

  lemma CarryStep(v: seq<byte>, i: nat, was: seq<byte>, newValue: byte)
    requires i < |v| && newValue == (v[i] as int + 1) % 256 && |was| == |v| - i - 1
    requires was == ToBigEndian(0, |was|) && FromBigEndian(v[i + 1..]) + 1 == Pow256(|was|)
    ensures newValue == 0 ==>
              [newValue] + was == ToBigEndian(0, |v| - i) && FromBigEndian(v[i..]) + 1 == Pow256(|v| - i)
    ensures newValue != 0 ==> FromBigEndian([newValue] + was) == FromBigEndian(v[i..]) + 1
  {
    hide FromBigEndian, ToBigEndian;
    assert v[i..] == [v[i]] + v[i + 1..];
    HeadOctet(v[i], v[i + 1..]);
    HeadOctet(newValue, was);
    FromToBigEndian(0, |was|);
    if newValue == 0 {
      ZeroExtends(|was|);
      assert v[i] == 0xFF;
    } else {
      OneMore(v[i], Pow256(|was|));
    }
  }

  lemma HeadOctet(x: byte, t: seq<byte>)
    ensures FromBigEndian([x] + t) == x * Pow256(|t|) + FromBigEndian(t)
  {
    SingleOctet(x);
    FromBigEndianConcat([x], t);
  }

  lemma OneMore(x: nat, p: nat)
    ensures (x + 1) * p == x * p + p
  {
  }

  lemma SingleOctet(x: byte)
    ensures FromBigEndian([x]) == x
  {
    assert [x][..0] == [];
  }

  lemma {:induction false} ZeroExtends(k: nat)
    ensures [0] + ToBigEndian(0, k) == ToBigEndian(0, k + 1) == ToBigEndian(0, k) + [0]
  {
    if k > 0 {
      ZeroExtends(k - 1);
      assert [0] + (ToBigEndian(0, k - 1) + [0]) == ([0] + ToBigEndian(0, k - 1)) + [0];
    }
  }

  lemma SuccessorValue(v: seq<byte>, i: nat, carried: seq<byte>, isOverflow: bool, value: seq<byte>)
    requires i <= |v| && |carried| == |v| - i && (isOverflow ==> i == 0)
    requires isOverflow ==> carried == ToBigEndian(0, |v|) && FromBigEndian(v) + 1 == Pow256(|v|)
    requires !isOverflow ==> FromBigEndian(carried) == FromBigEndian(v[i..]) + 1
    requires value == v[..i] + carried + if isOverflow then [0] else []
    ensures value == NextValue(v)
  {
    hide FromBigEndian, ToBigEndian, Pow256;
    if isOverflow {
      ZeroExtends(|v|);
      assert value == carried + [0];
    } else {
      assert v == v[..i] + v[i..];
      assert value == v[..i] + carried;
      TailIncrement(v[..i], v[i..], carried);
      ToFromBigEndian(value);
    }
  }

  // ---- numbers with a marker ----

  const SEGMENT_MARKER: byte := 0x00
  const SEQUENCE_NUMBER_MARKER: byte := 0xFE

  predicate IsNumberWithMarker(c: Component, marker: byte)
  {
    c.value != [] && c.value[0] == marker && |c.value| in {2, 3, 5, 9}
  }

  function ToNumberWithMarker(c: Component, marker: byte): Result<nat, Blocks.Error>
  {
    if !IsNumberWithMarker(c, marker) then Err(Blocks.TlvError)
    else match ReadNonNegativeInteger(|c.value| - 1, c.value[1..])
      case Integer(n) => Ok(n)
      case _ => Err(Blocks.TlvError)
  }

  function FromNumberWithMarker(marker: byte, n: nat): Component
  {
    Component(NAME_COMPONENT, [marker] + EncodeNonNegativeInteger(n))
  }

  /** Distinct 64-bit numbers make distinct components, each read back. */
  lemma NumberWithMarkerRoundTrip(marker: byte, n: nat)
    requires n <= U64_MAX
    ensures ToNumberWithMarker(FromNumberWithMarker(marker, n), marker) == Ok(n)
  {
    var c := FromNumberWithMarker(marker, n);
    NonNegativeIntegerRoundTrip(n, []);
    assert c.value[1..] == EncodeNonNegativeInteger(n) + [];
  }

  /** Read are the marker and one, two, four or eight octets behind it, in network order. */
  lemma NumberWithMarkerMeans(c: Component, marker: byte)
    ensures ToNumberWithMarker(c, marker).Ok? <==>
              |c.value| in {2, 3, 5, 9} && c.value[0] == marker
    ensures ToNumberWithMarker(c, marker).Ok? ==>
              c.value[1..] == ToBigEndian(ToNumberWithMarker(c, marker).value, |c.value| - 1)
  {
    if |c.value| in {2, 3, 5, 9} {
      var octets := c.value[1..];
      ToFromBigEndian(octets);
      assert octets[..|octets|] == octets;
    }
  }
}
