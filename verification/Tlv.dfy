/** VAR-NUMBER and nonNegativeInteger of NDN-TLV (src/encoding/tlv.hpp). */
module Tlv {
  import opened Octets

  // TLV-TYPE assignments
  const INTEREST: nat := 5
  const DATA: nat := 6
  const NAME: nat := 7
  const IMPLICIT_SHA256_DIGEST_COMPONENT: nat := 1
  const NAME_COMPONENT: nat := 8
  const SELECTORS: nat := 9
  const NONCE: nat := 10
  const INTEREST_LIFETIME: nat := 12
  const MIN_SUFFIX_COMPONENTS: nat := 13
  const MAX_SUFFIX_COMPONENTS: nat := 14
  const EXCLUDE: nat := 16
  const CHILD_SELECTOR: nat := 17
  const MUST_BE_FRESH: nat := 18
  const ANY: nat := 19
  const CONTENT: nat := 21
  const KEY_LOCATOR: nat := 28
  const SELECTED_DELEGATION: nat := 32

  /** Outcome of a read: `consumed` is how far the `begin` iterator moved, also on failure. */
  datatype VarNumber = VarNumber(ok: bool, number: nat, consumed: nat)

  /** Octets that follow the first octet of a VAR-NUMBER. */
  function Following(first: byte): nat
  {
    if first < 253 then 0 else if first == 253 then 2 else if first == 254 then 4 else 8
  }

  /** The buffer form of readVarNumber, on the octets between `begin` and `end`. */
  function ReadVarNumber(s: seq<byte>): VarNumber
  {
    if s == [] then VarNumber(false, 0, 0)
    else if s[0] < 253 then VarNumber(true, s[0], 1)
    else
      var width := Following(s[0]);
      if |s| - 1 < width then VarNumber(false, 0, 1)
      else VarNumber(true, FromBigEndian(s[1..1 + width]), 1 + width)
  }

  /** readType: a VAR-NUMBER that must fit in 32 bits. */
  function ReadType(s: seq<byte>): VarNumber
  {
    var r := ReadVarNumber(s);
    if r.ok && r.number > U32_MAX then VarNumber(false, 0, r.consumed) else r
  }

  function SizeOfVarNumber(n: nat): nat
  {
    if n < 253 then 1 else if n <= U16_MAX then 3 else if n <= U32_MAX then 5 else 9
  }

  function WriteVarNumber(n: nat): (b: seq<byte>)
    ensures |b| == SizeOfVarNumber(n)
  {
    if n < 253 then [n]
    else if n <= U16_MAX then [253] + ToBigEndian(n, 2)
    else if n <= U32_MAX then [254] + ToBigEndian(n, 4)
    else [255] + ToBigEndian(n, 8)
  }

  lemma VarNumberRoundTrip(n: nat, rest: seq<byte>)
    requires n <= U64_MAX
    ensures ReadVarNumber(WriteVarNumber(n) + rest) == VarNumber(true, n, SizeOfVarNumber(n))
  {
    Pow256Values();
    if n >= 253 {
      var width := SizeOfVarNumber(n) - 1;
      FromToBigEndian(n, width);
      assert (WriteVarNumber(n) + rest)[1..1 + width] == ToBigEndian(n, width);
    }
  }

  /** Types have 32 bits; a wider number moves the iterator all the same. */
  lemma TypesAreNarrow(n: nat, rest: seq<byte>)
    requires n <= U64_MAX
    ensures ReadType(WriteVarNumber(n) + rest) ==
            if n <= 0xFFFF_FFFF then VarNumber(true, n, SizeOfVarNumber(n))
            else VarNumber(false, 0, SizeOfVarNumber(n))
  {
    hide ReadVarNumber;
    VarNumberRoundTrip(n, rest);
  }

  /** A written form cut short is not read. */
  lemma CutShortFails(n: nat, k: nat)
    requires n <= U64_MAX && k < SizeOfVarNumber(n)
    ensures !ReadVarNumber(WriteVarNumber(n)[..k]).ok
  {
  }

  /** The four written forms: the first octet, how many follow, and the number these spell. */
  lemma WrittenForms(n: nat)
    requires n <= U64_MAX
    ensures var w := WriteVarNumber(n);
            if n <= 0xFC then w == [n]
            else
              && FromBigEndian(w[1..]) == n
              && (n <= 0xFFFF ==> w[0] == 0xFD && |w| == 3)
              && (0xFFFF < n <= 0xFFFF_FFFF ==> w[0] == 0xFE && |w| == 5)
              && (0xFFFF_FFFF < n ==> w[0] == 0xFF && |w| == 9)
  {
    hide FromBigEndian, ToBigEndian, Pow256;
    Pow256Values();
    if n > 0xFC {
      FromToBigEndian(n, SizeOfVarNumber(n) - 1);
      assert WriteVarNumber(n)[1..] == ToBigEndian(n, SizeOfVarNumber(n) - 1);
    }
  }

  /** What a reader accepts is bounded, never shorter than what the writer emits,
      and as short as that only when it is what the writer emits. */
  lemma WrittenFormIsShortest(s: seq<byte>)
    requires ReadVarNumber(s).ok
    ensures var r := ReadVarNumber(s);
            && r.number <= U64_MAX
            && SizeOfVarNumber(r.number) <= r.consumed <= |s|
            && (r.consumed == SizeOfVarNumber(r.number) <==> s[..r.consumed] == WriteVarNumber(r.number))
  {
    Pow256Values();
    if s[0] >= 253 {
      var width := Following(s[0]);
      ToFromBigEndian(s[1..1 + width]);
      assert s[..1 + width] == [s[0]] + s[1..1 + width];
    } else {
      assert s[..1] == [s[0]];
    }
  }

  /** A read looks at nothing beyond what it consumes. */
  lemma ReadIsLocal(s: seq<byte>, t: seq<byte>)
    requires ReadVarNumber(s).ok
    ensures ReadVarNumber(s[..ReadVarNumber(s).consumed] + t) == ReadVarNumber(s)
  {
    var k := ReadVarNumber(s).consumed;
    if s[0] >= 253 {
      assert (s[..k] + t)[1..k] == s[1..k];
    }
  }

  /** Written forms are prefix-free and sort, octet by octet, as the numbers do. */
  lemma WrittenOrder(m: nat, n: nat)
    requires m < n <= U64_MAX
    ensures var k := if SizeOfVarNumber(m) < SizeOfVarNumber(n) then SizeOfVarNumber(m) else SizeOfVarNumber(n);
            Memcmp(WriteVarNumber(m), WriteVarNumber(n), k) < 0
  {
    Pow256Values();
    var a, b := WriteVarNumber(m), WriteVarNumber(n);
    if SizeOfVarNumber(m) == SizeOfVarNumber(n) > 1 {
      var width := |a| - 1;
      var p, q := ToBigEndian(m, width), ToBigEndian(n, width);
      FromToBigEndian(m, width);
      FromToBigEndian(n, width);
      MemcmpIsNumeric(p, q);
      assert a[1..] == p && b[1..] == q;
    }
  }

  /** The shift-and-or loop of the stream readers, over at most `width` octets from `pos`. */
  method ReadShifted(s: seq<byte>, pos: nat, width: nat) returns (value: nat, count: nat)
    requires pos <= |s| && width <= 8
    ensures count == if |s| - pos < width then |s| - pos else width
    ensures value == FromBigEndian(s[pos..pos + count])
  {
    hide FromBigEndian;
    value, count := 0, 0;
    EmptyNumber();
    assert s[pos..pos] == [];
    while pos + count < |s| && count < width
      invariant count <= width && pos + count <= |s|
      invariant value == FromBigEndian(s[pos..pos + count])
    {
      ShiftIn(s[pos..pos + count], s[pos + count]);
      assert s[pos..pos + count + 1] == s[pos..pos + count] + [s[pos + count]];
      value := (value * 256) % (U64_MAX + 1) + s[pos + count];  // uint64_t: value << 8 | octet
      count := count + 1;
    }
  }

  /** Fewer than eight octets never overflow. */
  lemma ShiftIn(seen: seq<byte>, octet: byte)
    requires |seen| < 8
    ensures FromBigEndian(seen + [octet]) == (FromBigEndian(seen) * 256) % (U64_MAX + 1) + octet
  {
    hide FromBigEndian, Pow256, ToBigEndian;
    LastOctet(seen, octet);
    ToFromBigEndian(seen);
    Pow256Values();
    Pow256Grows(|seen|, 7);
    Pow256Step(7);
  }

  lemma {:induction false} Pow256Grows(j: nat, k: nat)
    requires j <= k
    ensures Pow256(j) <= Pow256(k)
    decreases k
  {
    if j < k {
      Pow256Grows(j, k - 1);
    }
  }

  lemma Pow256Step(k: nat)
    ensures Pow256(k + 1) == 256 * Pow256(k)
  {
  }

  /** The istream_iterator specialisation agrees with the buffer form on every input; where both
      fail, only the stream may have swallowed the remaining octets. */
  method ReadVarNumberFromStream(s: seq<byte>) returns (r: VarNumber)
    ensures r.ok == ReadVarNumber(s).ok
    ensures r.ok ==> r == ReadVarNumber(s)
    ensures !r.ok ==> r.consumed == |s|
  {
    if s == [] {
      return VarNumber(false, 0, 0);
    }
    if s[0] < 253 {
      return VarNumber(true, s[0], 1);
    }
    var width := Following(s[0]);
    var value, count := ReadShifted(s, 1, width);
    return VarNumber(count == width, value, 1 + count);
  }

  // ---- nonNegativeInteger ----

  function SizeOfNonNegativeInteger(n: nat): nat
  {
    if n < 253 then 1 else if n <= U16_MAX then 2 else if n <= U32_MAX then 4 else 8
  }

  /** tlv::writeNonNegativeInteger: one octet only below 253. */
  function WriteNonNegativeInteger(n: nat): (b: seq<byte>)
    ensures |b| == SizeOfNonNegativeInteger(n)
  {
    ToBigEndian(n, SizeOfNonNegativeInteger(n))
  }

  /** Encoder::prependNonNegativeInteger: one octet up to 255. */
  function EncodeNonNegativeInteger(n: nat): (b: seq<byte>)
    ensures |b| in {1, 2, 4, 8}
  {
    ToBigEndian(n, if n <= 0xFF then 1 else if n <= U16_MAX then 2 else if n <= U32_MAX then 4 else 8)
  }

  datatype Integer = Integer(number: nat) | InvalidLength | InsufficientData

  /** readNonNegativeInteger(size, begin, end), reading the first `size` octets of `s`. */
  function ReadNonNegativeInteger(size: nat, s: seq<byte>): Integer
  {
    if size !in {1, 2, 4, 8} then InvalidLength
    else if |s| < size then InsufficientData
    else Integer(FromBigEndian(s[..size]))
  }

  lemma NonNegativeIntegerRoundTrip(n: nat, rest: seq<byte>)
    requires n <= U64_MAX
    ensures ReadNonNegativeInteger(SizeOfNonNegativeInteger(n), WriteNonNegativeInteger(n) + rest) == Integer(n)
    ensures ReadNonNegativeInteger(|EncodeNonNegativeInteger(n)|, EncodeNonNegativeInteger(n) + rest) == Integer(n)
    ensures |WriteNonNegativeInteger(n)| != |EncodeNonNegativeInteger(n)| <==> 253 <= n <= 255
  {
    Pow256Values();
    var w, e := WriteNonNegativeInteger(n), EncodeNonNegativeInteger(n);
    FromToBigEndian(n, |w|);
    FromToBigEndian(n, |e|);
    assert (w + rest)[..|w|] == w && (e + rest)[..|e|] == e;
  }

  /** The stream specialisation of readNonNegativeInteger. */
  method ReadNonNegativeIntegerFromStream(size: nat, s: seq<byte>) returns (r: Integer)
    ensures r == ReadNonNegativeInteger(size, s)
    ensures r == InvalidLength <==> size != 1 && size != 2 && size != 4 && size != 8
    ensures r == InsufficientData <==> size in {1, 2, 4, 8} && |s| < size
    ensures r.Integer? ==> r.number == FromBigEndian(s[..size])
  {
    if size !in {1, 2, 4, 8} {
      return InvalidLength;
    }
    var value, count := ReadShifted(s, 0, size);
    assert s[0..count] == s[..count];
    return if count == size then Integer(value) else InsufficientData;
  }
}
