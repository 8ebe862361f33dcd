/** The double-ended packet buffer, its size-only twin, and the estimate-then-encode pattern
    (src/encoding/encoder.cpp, estimator.cpp, block-helpers.cpp). */
module Encoding {
  import opened Octets
  import opened Tlv

  /** What one call adds; a block with a wire is added as octets. */
  datatype Piece =
    | Octet(value: byte)
    | Octets(octets: seq<byte>)
    | Var(number: nat)
    | NonNegative(number: nat)
    | Block(typ: nat, content: seq<byte>)

  function Written(piece: Piece): seq<byte>
  {
    match piece
    case Octet(value) => [value]
    case Octets(octets) => octets
    case Var(number) => WriteVarNumber(number)
    case NonNegative(number) => EncodeNonNegativeInteger(number)
    case Block(typ, content) => Wire(Leaf(typ, content))
  }

  datatype Call =
    | Prepend(piece: Piece)
    | Append(piece: Piece)
    | Reserve(size: nat, addInFront: bool)
    | ReserveFront(size: nat)
    | ReserveBack(size: nat)

  /** The abstract double-ended octet string after `calls`. */
  function Effect(start: seq<byte>, calls: seq<Call>): seq<byte>
  {
    if calls == [] then start
    else
      var before := Effect(start, calls[..|calls| - 1]);
      match calls[|calls| - 1]
      case Prepend(piece) => Written(piece) + before
      case Append(piece) => before + Written(piece)
      case _ => before
  }

  // ---- packet descriptions ----

  /** What a wireEncode template asks of its encoder, field by field. */
  datatype Field =
    | Raw(wire: seq<byte>)                  // prependBlock of an encoded Block
    | Leaf(typ: nat, value: seq<byte>)      // prependByteArrayBlock, prependEmptyBlock
    | Number(typ: nat, number: nat)         // prependNonNegativeIntegerBlock
    | Nested(typ: nat, fields: seq<Field>)  // fields back to front, then their total length, then the type

  function Header(typ: nat, length: nat): (h: seq<byte>)
  {
    WriteVarNumber(typ) + WriteVarNumber(length)
  }

  /** The octets of a description, by the NDN-TLV grammar. */
  function Wire(f: Field): seq<byte>
    decreases f, 1
  {
    match f
    case Raw(wire) => wire
    case Leaf(typ, value) => Header(typ, |value|) + value
    case Number(typ, n) => Header(typ, |EncodeNonNegativeInteger(n)|) + EncodeNonNegativeInteger(n)
    case Nested(typ, fields) => Header(typ, |WireAll(fields)|) + WireAll(fields)
  }

  function WireAll(fields: seq<Field>): seq<byte>
    decreases fields, 0
  {
    if fields == [] then [] else Wire(fields[0]) + WireAll(fields[1..])
  }

  // ---- Estimator ----

  function EstimateVarNumber(n: nat): nat
  {
    if n < 253 then 1 else if n <= U16_MAX then 3 else if n <= U32_MAX then 5 else 9
  }

  function EstimateNonNegativeInteger(n: nat): nat
  {
    if n <= 0xFF then 1 else if n <= U16_MAX then 2 else if n <= U32_MAX then 4 else 8
  }

  /** A wireEncode template run on the Estimator. */
  function Estimate(f: Field): nat
    decreases f, 1
  {
    match f
    case Raw(wire) => |wire|
    case Leaf(typ, value) => |value| + EstimateVarNumber(|value|) + EstimateVarNumber(typ)
    case Number(typ, n) =>
      var length := EstimateNonNegativeInteger(n);
      length + EstimateVarNumber(length) + EstimateVarNumber(typ)
    case Nested(typ, fields) =>
      var total := EstimateAll(fields);
      total + EstimateVarNumber(total) + EstimateVarNumber(typ)
  }

  function EstimateAll(fields: seq<Field>): nat
    decreases fields, 0
  {
    if fields == [] then 0 else Estimate(fields[0]) + EstimateAll(fields[1..])
  }

  /** The Estimator is exact on every nested description. */
  lemma {:induction false} EstimateIsExact(f: Field)
    ensures Estimate(f) == |Wire(f)|
    decreases f, 1
  {
    if f.Nested? {
      EstimateAllIsExact(f.fields);
    }
  }

  lemma {:induction false} EstimateAllIsExact(fields: seq<Field>)
    ensures EstimateAll(fields) == |WireAll(fields)|
    decreases fields, 0
  {
    if fields != [] {
      EstimateIsExact(fields[0]);
      EstimateAllIsExact(fields[1..]);
    }
  }

  class Encoder {
    var buffer: array<byte>
    var begin: nat
    var end: nat

    ghost predicate Valid()
      reads this
    {
      begin <= end <= buffer.Length
    }

    /** The octets encoded so far. */
    ghost function Contents(): seq<byte>
      reads this, buffer
      requires Valid()
    {
      buffer[begin..end]
    }

    ghost function BackRoom(): nat
      reads this
      requires Valid()
    {
      buffer.Length - end
    }

    /** `octets` went in front; nothing else changed, and nothing moved if there was room. */
    twostate predicate Prepended(octets: seq<byte>)
      reads this, buffer
    {
      && old(Valid()) && Valid()
      && Contents() == octets + old(Contents())
      && BackRoom() == old(BackRoom())
      && (|octets| <= old(begin) ==> buffer == old(buffer) && begin == old(begin) - |octets|)
    }

    twostate predicate Appended(octets: seq<byte>)
      reads this, buffer
    {
      && old(Valid()) && Valid()
      && Contents() == old(Contents()) + octets
      && begin == old(begin)
      && (|octets| <= old(BackRoom()) ==> buffer == old(buffer))
    }

    constructor (totalReserve: nat, reserveFromBack: nat)
      ensures Valid() && fresh(buffer) && buffer.Length == totalReserve
      ensures Contents() == [] && BackRoom() == if reserveFromBack < totalReserve then reserveFromBack else 0
    {
      buffer := new byte[totalReserve](_ => 0);
      begin := totalReserve - (if reserveFromBack < totalReserve then reserveFromBack else 0);
      end := totalReserve - (if reserveFromBack < totalReserve then reserveFromBack else 0);
    }

    /** `size` is the new capacity, not the new room: the room promised by the class documentation is
        there exactly when it was there before, or when the buffer held nothing on that side's far end. */
    method Reserve(size: nat, addInFront: bool)
      requires Valid()
      modifies this
      ensures Valid() && fresh(buffer) && Contents() == old(Contents())
      ensures buffer.Length == if size < old(buffer.Length) then old(buffer.Length) else size
      ensures if addInFront then BackRoom() == old(BackRoom()) else begin == old(begin)
      ensures addInFront ==> (size <= begin <==> size <= old(begin) || old(begin) == old(buffer.Length))
      ensures !addInFront ==> (size <= BackRoom() <==> size <= old(BackRoom()) || old(end) == 0)
    {
      var capacity := if size < buffer.Length then buffer.Length else size;
      var shift := if addInFront then capacity - buffer.Length else 0;
      var buf := Copied(capacity, shift);
      begin, end := begin + shift, end + shift;
      buffer := buf;
    }

    /** A new buffer with the old one copied to its front or, as std::copy_backward does, to its back. */
    method Copied(capacity: nat, shift: nat) returns (buf: array<byte>)
      requires Valid() && shift + buffer.Length <= capacity
      ensures fresh(buf) && buf.Length == capacity && buf[begin + shift..end + shift] == Contents()
    {
      buf := new byte[capacity](_ => 0);
      forall k | 0 <= k < buffer.Length {
        buf[k + shift] := buffer[k];
      }
      forall k | 0 <= k < end - begin
        ensures buf[begin + shift..end + shift][k] == Contents()[k]
      {
        assert buf[begin + k + shift] == buffer[begin + k];
      }
    }

    method ReserveFront(size: nat)
      requires Valid()
      modifies this
      ensures Valid() && size <= begin && Contents() == old(Contents()) && BackRoom() == old(BackRoom())
      ensures if size <= old(begin) then buffer == old(buffer) && begin == old(begin) else fresh(buffer)
    {
      if size > begin {
        Reserve(buffer.Length * 2 + size, true);
      }
    }

    method ReserveBack(size: nat)
      requires Valid()
      modifies this
      ensures Valid() && size <= BackRoom() && Contents() == old(Contents()) && begin == old(begin)
      ensures if size <= old(BackRoom()) then buffer == old(buffer) && end == old(end) else fresh(buffer)
    {
      if end + size > buffer.Length {
        Reserve(buffer.Length * 2 + size, false);
      }
    }

    method PrependByte(value: byte) returns (n: nat)
      requires Valid()
      modifies this, buffer
      ensures n == 1 && Prepended([value]) && (buffer == old(buffer) || fresh(buffer))
    {
      ReserveFront(1);
      begin := begin - 1;
      buffer[begin] := value;
      n := 1;
    }

    method AppendByte(value: byte) returns (n: nat)
      requires Valid()
      modifies this, buffer
      ensures n == 1 && Appended([value]) && (buffer == old(buffer) || fresh(buffer))
    {
      ReserveBack(1);
      buffer[end] := value;
      end := end + 1;
      n := 1;
    }

    /** std::copy into the buffer, which leaves the octets around alone. */
    method Put(position: nat, octets: seq<byte>)
      requires begin <= end <= buffer.Length && position + |octets| <= buffer.Length
      requires position + |octets| <= end || end <= position
      modifies buffer
      ensures buffer[position..position + |octets|] == octets
      ensures position + |octets| <= end ==> buffer[position + |octets|..end] == old(buffer[position + |octets|..end])
      ensures end <= position ==> buffer[begin..end] == old(buffer[begin..end])
    {
      forall k | 0 <= k < |octets| {
        buffer[position + k] := octets[k];
      }
    }

    method PrependByteArray(octets: seq<byte>) returns (n: nat)
      requires Valid()
      modifies this, buffer
      ensures n == |octets| && Prepended(octets) && (buffer == old(buffer) || fresh(buffer))
    {
      ReserveFront(|octets|);
      ghost var was := buffer[begin..end];
      assert was == old(Contents());
      n := |octets|;
      begin := begin - n;
      Put(begin, octets);
      assert buffer[begin + n..end] == was;
      assert buffer[begin..end] == buffer[begin..begin + n] + buffer[begin + n..end];
    }

    method AppendByteArray(octets: seq<byte>) returns (n: nat)
      requires Valid()
      modifies this, buffer
      ensures n == |octets| && Appended(octets) && (buffer == old(buffer) || fresh(buffer))
    {
      ReserveBack(|octets|);
      ghost var was := buffer[begin..end];
      assert was == old(Contents());
      n := |octets|;
      Put(end, octets);
      assert buffer[begin..end] == was;
      end := end + n;
      assert buffer[begin..end] == buffer[begin..end - n] + buffer[end - n..end];
    }

    method PrependVarNumber(number: nat) returns (n: nat)
      requires Valid()
      modifies this, buffer
      ensures n == SizeOfVarNumber(number) && Prepended(WriteVarNumber(number))
      ensures buffer == old(buffer) || fresh(buffer)
    {
      hide ToBigEndian;
      if number < 253 {
        n := PrependByte(number);
      } else if number <= U16_MAX {
        n := PrependMarked(253, ToBigEndian(number, 2));
      } else if number <= U32_MAX {
        n := PrependMarked(254, ToBigEndian(number, 4));
      } else {
        n := PrependMarked(255, ToBigEndian(number, 8));
      }
    }

    /** The two calls of one multi-octet branch of prependVarNumber. */
    method PrependMarked(marker: byte, octets: seq<byte>) returns (n: nat)
      requires Valid()
      modifies this, buffer
      ensures n == 1 + |octets| && Prepended([marker] + octets)
      ensures buffer == old(buffer) || fresh(buffer)
    {
      hide ToBigEndian;
      ghost var was := Contents();
      n := PrependByteArray(octets);
      ghost var between := Contents();
      var k := PrependByte(marker);
      n := n + k;
      assert [marker] + between == ([marker] + octets) + was;
    }

    method AppendVarNumber(number: nat) returns (n: nat)
      requires Valid()
      modifies this, buffer
      ensures n == SizeOfVarNumber(number) && Appended(WriteVarNumber(number))
      ensures buffer == old(buffer) || fresh(buffer)
    {
      hide ToBigEndian;
      if number < 253 {
        n := AppendByte(number);
      } else if number <= U16_MAX {
        n := AppendMarked(253, ToBigEndian(number, 2));
      } else if number <= U32_MAX {
        n := AppendMarked(254, ToBigEndian(number, 4));
      } else {
        n := AppendMarked(255, ToBigEndian(number, 8));
      }
    }

    method AppendMarked(marker: byte, octets: seq<byte>) returns (n: nat)
      requires Valid()
      modifies this, buffer
      ensures n == 1 + |octets| && Appended([marker] + octets)
      ensures buffer == old(buffer) || fresh(buffer)
    {
      ghost var was := Contents();
      n := AppendByte(marker);
      ghost var between := Contents();
      var k := AppendByteArray(octets);
      n := n + k;
      assert between + octets == was + ([marker] + octets);
    }

    method PrependNonNegativeInteger(number: nat) returns (n: nat)
      requires Valid()
      modifies this, buffer
      ensures n == |EncodeNonNegativeInteger(number)| && Prepended(EncodeNonNegativeInteger(number))
      ensures buffer == old(buffer) || fresh(buffer)
    {
      if number <= 0xFF {
        assert ToBigEndian(number, 1) == [number];
        n := PrependByte(number);
      } else {
        n := PrependByteArray(EncodeNonNegativeInteger(number));
      }
    }

    method AppendNonNegativeInteger(number: nat) returns (n: nat)
      requires Valid()
      modifies this, buffer
      ensures n == |EncodeNonNegativeInteger(number)| && Appended(EncodeNonNegativeInteger(number))
      ensures buffer == old(buffer) || fresh(buffer)
    {
      if number <= 0xFF {
        assert ToBigEndian(number, 1) == [number];
        n := AppendByte(number);
      } else {
        n := AppendByteArray(EncodeNonNegativeInteger(number));
      }
    }

    /** The closing calls of every TLV element: its length, then its type. */
    method PrependHeader(typ: nat, length: nat) returns (n: nat)
      requires Valid()
      modifies this, buffer
      ensures n == |Header(typ, length)| && Prepended(Header(typ, length))
      ensures buffer == old(buffer) || fresh(buffer)
    {
      hide WriteVarNumber;
      ghost var was := Contents();
      var l := PrependVarNumber(length);
      ghost var between := Contents();
      var t := PrependVarNumber(typ);
      n := l + t;
      assert WriteVarNumber(typ) + between == Header(typ, length) + was;
    }

    method PrependByteArrayBlock(typ: nat, value: seq<byte>) returns (n: nat)
      requires Valid()
      modifies this, buffer
      ensures n == |Wire(Leaf(typ, value))| && Prepended(Wire(Leaf(typ, value)))
      ensures buffer == old(buffer) || fresh(buffer)
    {
      hide WriteVarNumber;
      ghost var was := Contents();
      var k := PrependByteArray(value);
      ghost var between := Contents();
      var h := PrependHeader(typ, |value|);
      n := k + h;
      assert Header(typ, |value|) + between == Wire(Leaf(typ, value)) + was;
    }

    method AppendByteArrayBlock(typ: nat, value: seq<byte>) returns (n: nat)
      requires Valid()
      modifies this, buffer
      ensures n == |Wire(Leaf(typ, value))| && Appended(Wire(Leaf(typ, value)))
      ensures buffer == old(buffer) || fresh(buffer)
    {
      hide WriteVarNumber;
      ghost var was := Contents();
      var t := AppendVarNumber(typ);
      ghost var afterType := Contents();
      var l := AppendVarNumber(|value|);
      ghost var afterLength := Contents();
      var k := AppendByteArray(value);
      n := t + l + k;
      assert afterLength + value == was + Wire(Leaf(typ, value));
    }

    method PrependPiece(piece: Piece) returns (n: nat)
      requires Valid()
      modifies this, buffer
      ensures n == |Written(piece)| && Prepended(Written(piece)) && (buffer == old(buffer) || fresh(buffer))
    {
      hide WriteVarNumber, EncodeNonNegativeInteger, Wire;
      match piece {
        case Octet(value) => n := PrependByte(value);
        case Octets(octets) => n := PrependByteArray(octets);
        case Var(number) => n := PrependVarNumber(number);
        case NonNegative(number) => n := PrependNonNegativeInteger(number);
        case Block(typ, value) => n := PrependByteArrayBlock(typ, value);
      }
    }

    method AppendPiece(piece: Piece) returns (n: nat)
      requires Valid()
      modifies this, buffer
      ensures n == |Written(piece)| && Appended(Written(piece)) && (buffer == old(buffer) || fresh(buffer))
    {
      hide WriteVarNumber, EncodeNonNegativeInteger, Wire;
      match piece {
        case Octet(value) => n := AppendByte(value);
        case Octets(octets) => n := AppendByteArray(octets);
        case Var(number) => n := AppendVarNumber(number);
        case NonNegative(number) => n := AppendNonNegativeInteger(number);
        case Block(typ, value) => n := AppendByteArrayBlock(typ, value);
      }
    }

    /** Any interleaving of calls holds exactly the concatenation it describes, and the sizes returned add up
        to what was added. */
    method Run(calls: seq<Call>) returns (total: nat)
      requires Valid()
      modifies this, buffer
      ensures Valid() && (buffer == old(buffer) || fresh(buffer))
      ensures Contents() == Effect(old(Contents()), calls)
      ensures total == |Contents()| - |old(Contents())|
    {
      hide Written;
      total := 0;
      for i := 0 to |calls|
        invariant Valid() && (buffer == old(buffer) || fresh(buffer))
        invariant Contents() == Effect(old(Contents()), calls[..i])
        invariant total == |Contents()| - |old(Contents())|
      {
        assert calls[..i + 1][..i] == calls[..i];
        var call, n := calls[i], 0;
        match call {
          case Prepend(piece) => n := PrependPiece(piece);
          case Append(piece) => n := AppendPiece(piece);
          case Reserve(size, addInFront) => Reserve(size, addInFront);
          case ReserveFront(size) => ReserveFront(size);
          case ReserveBack(size) => ReserveBack(size);
        }
        total := total + n;
      }
      assert calls[..|calls|] == calls;
    }
  }

  /** A wireEncode template run on the Encoder. */
  method Encode(f: Field, encoder: Encoder) returns (total: nat)
    requires encoder.Valid()
    modifies encoder, encoder.buffer
    ensures total == |Wire(f)| && encoder.Prepended(Wire(f))
    ensures encoder.buffer == old(encoder.buffer) || fresh(encoder.buffer)
    decreases f, 1
  {
    hide WriteVarNumber, EncodeNonNegativeInteger, ToBigEndian;
    match f {
      case Raw(wire) =>
        total := encoder.PrependByteArray(wire);
      case Leaf(typ, value) =>
        total := encoder.PrependByteArrayBlock(typ, value);
      case Number(typ, number) =>
        total := EncodeNumber(typ, number, encoder);
      case Nested(typ, fields) =>
        ghost var was := encoder.Contents();
        total := EncodeAll(fields, encoder);
        ghost var between := encoder.Contents();
        var h := encoder.PrependHeader(typ, total);
        assert Header(typ, total) + between == Wire(f) + was;
        total := total + h;
    }
  }

  method EncodeNumber(typ: nat, number: nat, encoder: Encoder) returns (total: nat)
    requires encoder.Valid()
    modifies encoder, encoder.buffer
    ensures total == |Wire(Number(typ, number))| && encoder.Prepended(Wire(Number(typ, number)))
    ensures encoder.buffer == old(encoder.buffer) || fresh(encoder.buffer)
  {
    hide WriteVarNumber, EncodeNonNegativeInteger, ToBigEndian;
    ghost var was := encoder.Contents();
    total := encoder.PrependNonNegativeInteger(number);
    ghost var between := encoder.Contents();
    var h := encoder.PrependHeader(typ, total);
    assert Header(typ, total) + between == Wire(Number(typ, number)) + was;
    total := total + h;
  }

  lemma WireAllSteps(fields: seq<Field>, i: nat)
    requires i <= |fields|
    ensures WireAll(fields[i..]) == if i == |fields| then [] else Wire(fields[i]) + WireAll(fields[i + 1..])
  {
    if i < |fields| {
      assert fields[i..][1..] == fields[i + 1..];
    }
  }

  lemma Associates(a: seq<byte>, b: seq<byte>, c: seq<byte>)
    ensures a + (b + c) == (a + b) + c
  {
  }

  method EncodeAll(fields: seq<Field>, encoder: Encoder) returns (total: nat)
    requires encoder.Valid()
    modifies encoder, encoder.buffer
    ensures total == |WireAll(fields)| && encoder.Prepended(WireAll(fields))
    ensures encoder.buffer == old(encoder.buffer) || fresh(encoder.buffer)
    decreases fields, 0
  {
    hide Wire, WireAll;
    total := 0;
    var i := |fields|;
    WireAllSteps(fields, i);
    while i > 0
      invariant 0 <= i <= |fields|
      invariant total == |WireAll(fields[i..])| && encoder.Prepended(WireAll(fields[i..]))
      invariant encoder.buffer == old(encoder.buffer) || fresh(encoder.buffer)
    {
      i := i - 1;
      ghost var after := WireAll(fields[i + 1..]);
      WireAllSteps(fields, i);
      Associates(Wire(fields[i]), after, encoder.Contents()[|after|..]);
      var n := Encode(fields[i], encoder);
      total := total + n;
    }
    assert fields[0..] == fields;
  }

  /** The estimate-then-encode pattern: the estimated buffer is filled exactly and never replaced. */
  method EncodeTight(f: Field) returns (encoder: Encoder, reserved: array<byte>)
    ensures fresh(encoder) && encoder.Valid() && encoder.Contents() == Wire(f)
    ensures fresh(reserved) && encoder.buffer == reserved && reserved[..] == Wire(f)
  {
    var estimated := Estimate(f);
    EstimateIsExact(f);
    encoder := new Encoder(estimated, 0);
    reserved := encoder.buffer;
    var _ := Encode(f, encoder);
    assert encoder.begin == 0 && encoder.end == reserved.Length;
  }

  /** Eight octets reserved in front of an empty encoder of capacity ten, four of them for the back, leave room
      for six. */
  method ReserveFallsShort() returns (room: nat)
    ensures room == 6
  {
    var encoder := new Encoder(10, 4);
    assert encoder.begin == 6;
    encoder.Reserve(8, true);
    room := encoder.begin;
  }
}
