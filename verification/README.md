# A verified model of ndn-cxx 0.5.1 data structures and of the letter scanner

The repository is an OCR demo over Named Data Networking together with the copy of ndn-cxx 0.5.1 it is built on. This
project models the parts of both in which correctness is hardest to see, and proves what their comments, documentation
and callers rely on. Each module follows one or two source files; objects whose methods update their fields are classes
whose methods are proved against functions on values, and the main results are lemmas about those functions or
invariants kept over any sequence of calls.

| module | what it models |
|---|---|
| `Octets`, `Tlv` | big-endian numbers, memcmp, VAR-NUMBER and nonNegativeInteger, buffer and stream readers |
| `Encoding` | the double-ended `Encoder`, the size-only `Estimator`, and packet descriptions run on both |
| `Blocks` | TLV elements: `parse`, `encode`, `fromBuffer`, `blockFromValue`, `push_back`, `remove` |
| `NameComponents`, `Names`, `NameUris` | canonical order, successor, prefixes, numbers with markers, URIs |
| `ExcludeMaps`, `ExcludeRanges`, `Excludes`, `ExcludeRuns`, `ExcludeShapes`, `ExcludeKeys` | the Exclude interval map, its enumeration, its in-place mutators and wire form, whole runs of calls, the shape of decoded maps, keys with wires |
| `Interests`, `InterestPackets` | the two Interest matchers; the Interest packet, encoded and decoded |
| `PendingPasses`, `Faces` | one pass of a packet over the pending Interests; their table with timers, callbacks, posted events and transport |
| `Datasets` | segmentation of status dataset responses |
| `CommandValidation` | the last-timestamp queue of command Interests |
| `Dispatching` | prefixes, filters and notification streams of the management dispatcher |
| `Letters` | cutting an image into letters at blank columns |

`dafny verify dfyconfig.toml` checks the project.

The results a reader may want first: `ExcludeMaps.RangeIsUnionIff` and `ExcludeRuns.RunRefinesUnion`,
`ExcludeRanges.EnumerationIsExactIff`, `NameComponents.CompareIsCanonical`, `Names.SuccessorDelimitsSubtree`,
`Blocks.ScanUndoesConcat`, `Encoding.EstimateIsExact` with `Encoding.EncodeTight`, `Faces.FaceImpl.Run` with
`Faces.FaceImpl.InvokeMatching` and `PendingPasses.AnsweredOnlyPendingIff`, `Datasets.StatusDatasetContext.Run`, `Interests.MatchersAgree`,
`InterestPackets.InterestRoundTrip`,
`CommandValidation.ReplayNeedsEviction`, `Dispatching.AtMostOneHandler`, `NameUris.ParseName` and `Letters.SegmentationIsExactIff`.

Components: generic components and implicit SHA-256 digests, which are the only types the library accepts.
Order on components is used through `Rank`, an order embedding into the integers that `RankIsCanonical` proves to be
canonical order (section "Canonical Order" of the NDN Packet Format Specification: type, then length, then octets).
`Excludes.Exclude` keeps the entries of the `std::map` as a sequence in iteration order; positions in it stand for the
iterators of the source. `Faces.Event` lists what the io_service may run, in any order; a script gives the Interests
each callback expresses. The ghost fields `fate`, `invoked`, `log`, `mark`, `clock`, `history`, `streamRels` and `appended` record the past and are
read by no executable statement.

## Where the code departs from its documentation

The model follows the code. Paths are below `ndn-cxx-ndn-cxx-0.5.1/src/` unless they say otherwise.

- `exclude.cpp:279-289`: when one entry with ANY covers `from` and no key lies between it and `to`, `excludeRange` and
  `excludeBefore` cut that range short at `to` and un-exclude everything up to the next key. `RangeMeans` gives the exact
  set, `RangeIsUnionIff` exactly when the documented union holds, `RangeAfterRay` a use of the public functions.
- `exclude.cpp:373-384`: two neighbouring entries may both carry ANY, against the assertion at line 379, and the
  enumeration then skips a range (with assertions compiled out, as in a release build). `EnumerationIsExactIff` says
  exactly when it does not. Such maps have two sources: a mutator whose `from` closes an existing range
  (`exclude.cpp:267-274, 298-305`; `RangeShape` and `FromHereShape` say exactly when, `EnumerationMissesJoinedRange` shows
  one), and a wire that lists adjoining ranges (`exclude.cpp:168-195`; `DecodedIsCombinedIff`, `AdjoiningRangesOnWire`).
  The excluded set itself is right.
- `exclude.cpp:50-55, 216-223`: keys read from wires that are not shortest encodings are ordered by those wires, so that a
  listed component need not be found (`ListedIsFoundIff` for any decoded map, `KeyFindsItselfIff`, `LongKeyIsLost`).
- `exclude.cpp:115, 169`: the commented grammar wants at least one component; a lone Any is accepted, and nothing else
  beyond it (`AcceptedIsDocumentedIff`, `DocumentedIsAccepted`). A wire rejected by `wireDecode` stays cached, so a later `wireEncode` returns it
  (`Excludes.Exclude.WireDecode`).
- `encoding/block.cpp:330-350`: an unreadable type or length throws but leaves the elements before it, and the next
  `parse` takes them for a finished parse (`ParseTwice`, `ParseTruncated`). Only an overrun clears them.
- `encoding/encoder.hpp:160-170`: `reserve(size, ...)` is documented as reserving `size` octets on one side; `size` is the
  new total capacity (`Encoder.Reserve` states when the promised room is there, `ReserveFallsShort` a case where it is not). `reserveFront` and `reserveBack` keep
  their promise.
- `name-component.cpp:397-416`: `compare` is canonical order only when wires are shortest encodings and sizes differ by
  less than 2^31 (`CompareIsCanonical`; `WireIsCanonicalIffMinimal` and `FieldsAreCanonicalIff` give the exact
  conditions, `CompareDeviates` concrete inputs). `WireComparison` says what it orders by otherwise.
- `name-component.cpp:419-445`, `name.cpp:280-291`: there is no successor of the largest digest or of a
  default-constructed component (both throw), and the successor of the empty name does not bound its subtree
  (`Names.GetSuccessor`, `RootSuccessor`).
- `name.cpp:323-338`: `compare` is documented to look at what `getSubName` returns. A position past the end throws,
  unless no component is looked at; a position counted from the end, as at() takes it, goes on at the beginning of the
  name when the count allows; any other position counts components it cannot read (`Names.Compare`,
  `SeenIsSubNameIff`, `PhantomComponents`).
- `interest.cpp:252-253, 296-297, 339`: an Interest with a negative lifetime is encoded without one, and `wireEncode`
  decodes its own result, so encoding changes the lifetime to 4000 milliseconds (`InterestPackets.InterestRoundTrip`).
- `detail/face-impl.hpp:119-148`: whether an Interest that a callback expresses is answered by the packet being handled
  depends on its position: it is if another entry follows the one called back, it is not if that one is last. Documentation
  promises neither; `AnsweredOnlyPendingIff` gives the exact condition, `PassFeedsItself` a loop with no bound of its own.
- `face.cpp:488-494`: only `processEvents` clears the tables after a transport error. An application that runs a shared
  io_service itself keeps pending Interests with a closed transport (`CloseTransport`).
- `security/command-interest-validator.hpp:78-80, 87-88`: with `maxTimestamps` 0, or `timestampTtl` 0 or negative, not
  every command is processed as initial, when several are being validated at once (`InitialIffNotAcceptedSince`,
  `InterleavedCommands`).
- `security/command-interest-validator.cpp:171-172`: the millisecond timestamp of a command is scaled to nanoseconds in 64
  bits, and so is its distance from the time of receipt and the negation of that. Distances beyond 64 bits pass when they
  are within the grace period modulo 2^64, or 2^63 exactly (`GraceIsExactIff`, `FarTimestampsPass`).
- `mgmt/dispatcher.cpp:361-363`: `m_streams` is keyed by relative prefix when a stream is added and by full stream name
  when something is posted, so posting can make an unrelated relative prefix be refused later (`Dispatcher.AddRelPrefix` says
  exactly when, `PostingBlocksPrefixes` shows one).
- `lib/processing.cpp:61-118`: letters are lost or cut short exactly when the first column, the last column or the last
  row is not blank (`SegmentationIsExactIff`).

## Model

| member | source | states |
|---|---|---|
| `Tlv.VarNumberRoundTrip` | ndn-cxx-ndn-cxx-0.5.1/src/encoding/tlv.hpp:244-432 | reading the written form of any 64-bit number, whatever follows, gives the number and consumes exactly sizeOfVarNumber octets |
| `Tlv.WrittenFormIsShortest` | ndn-cxx-ndn-cxx-0.5.1/src/encoding/tlv.hpp:244-287 | an accepted VAR-NUMBER fits 64 bits, takes at least sizeOfVarNumber octets, and takes exactly that many iff it is what the writer emits; so longer forms are accepted and never written |
| `Tlv.ReadIsLocal` | ndn-cxx-ndn-cxx-0.5.1/src/encoding/tlv.hpp:244-287 | the outcome of a read depends only on the octets it consumed |
| `Tlv.WrittenOrder` | ndn-cxx-ndn-cxx-0.5.1/src/encoding/tlv.hpp:406-432 | written forms are prefix-free and compare octet by octet as the numbers do |
| `Tlv.CutShortFails` | ndn-cxx-ndn-cxx-0.5.1/src/encoding/tlv.hpp:244-287 | a written form cut short at any point is not read |
| `Tlv.WrittenForms` | ndn-cxx-ndn-cxx-0.5.1/src/encoding/tlv.hpp:406-432 | the four written forms in octets: one up to 252; behind 253, 254 or 255, two, four or eight that spell the number |
| `Tlv.TypesAreNarrow` | ndn-cxx-ndn-cxx-0.5.1/src/encoding/tlv.hpp:289-301 | a type is read iff it fits 32 bits; a wider number is refused with the position moved behind it |
| `Tlv.ReadShifted` | ndn-cxx-ndn-cxx-0.5.1/src/encoding/tlv.hpp:330-375 | the shift-and-or loop over a stream, with its 64-bit shifts, computes the big-endian value of the octets it saw, however many there were |
| `Tlv.ReadVarNumberFromStream` | ndn-cxx-ndn-cxx-0.5.1/src/encoding/tlv.hpp:319-375 | the stream reader accepts the same inputs as the buffer reader with the same number and position; on failure only it has drained the input |
| `Tlv.NonNegativeIntegerRoundTrip` | ndn-cxx-ndn-cxx-0.5.1/src/encoding/tlv.hpp:434-584 | both writers of nonNegativeInteger, the stream one and the Encoder one, are read back as n; their lengths differ exactly for 253 to 255 |
| `Tlv.ReadNonNegativeIntegerFromStream` | ndn-cxx-ndn-cxx-0.5.1/src/encoding/tlv.hpp:479-542 | the stream reader agrees with the buffer reader on every size and input: the size must be 1, 2, 4 or 8 and that many octets there, and the value is theirs in network order |
| `Encoding.Encoder.constructor` | ndn-cxx-ndn-cxx-0.5.1/src/encoding/encoder.cpp:27-31 | an empty encoder with the reserved capacity, and reserveFromBack octets behind the contents unless that is not less than the total |
| `Encoding.Encoder.Reserve` | ndn-cxx-ndn-cxx-0.5.1/src/encoding/encoder.cpp:67-97 | growing in either direction keeps the contents and the room on the other side; `size` becomes the capacity, and room of `size` exists afterwards exactly when it did before, or when the contents stood at the very end (front) or very start (back) of the buffer |
| `Encoding.ReserveFallsShort` | ndn-cxx-ndn-cxx-0.5.1/src/encoding/encoder.cpp:67-97 | eight octets reserved in front of an empty encoder of capacity ten, four of them for the back, leave room for six |
| `Encoding.Encoder.ReserveFront` | ndn-cxx-ndn-cxx-0.5.1/src/encoding/encoder.cpp:50-56 | afterwards the room in front is at least `size`, contents and back room unchanged; no reallocation if there was room |
| `Encoding.Encoder.ReserveBack` | ndn-cxx-ndn-cxx-0.5.1/src/encoding/encoder.cpp:43-49 | the same at the back |
| `Encoding.Encoder.PrependByte` | ndn-cxx-ndn-cxx-0.5.1/src/encoding/encoder.cpp:103-111 | contents become the octet followed by the old contents, one octet is reported, and the buffer is replaced only for lack of room |
| `Encoding.Encoder.AppendByte` | ndn-cxx-ndn-cxx-0.5.1/src/encoding/encoder.cpp:113-121 | the same at the back |
| `Encoding.Encoder.PrependByteArray` | ndn-cxx-ndn-cxx-0.5.1/src/encoding/encoder.cpp:124-132 | contents become the array followed by the old contents; the size returned is the octets added |
| `Encoding.Encoder.AppendByteArray` | ndn-cxx-ndn-cxx-0.5.1/src/encoding/encoder.cpp:134-142 | the same at the back |
| `Encoding.Encoder.PrependVarNumber` | ndn-cxx-ndn-cxx-0.5.1/src/encoding/encoder.cpp:145-170 | the VAR-NUMBER of tlv::writeVarNumber goes in front in every size class, and its size is returned |
| `Encoding.Encoder.AppendVarNumber` | ndn-cxx-ndn-cxx-0.5.1/src/encoding/encoder.cpp:172-197 | the same at the back |
| `Encoding.Encoder.PrependNonNegativeInteger` | ndn-cxx-ndn-cxx-0.5.1/src/encoding/encoder.cpp:200-218 | the shortest of 1, 2, 4, 8 octets that holds the number goes in front |
| `Encoding.Encoder.AppendNonNegativeInteger` | ndn-cxx-ndn-cxx-0.5.1/src/encoding/encoder.cpp:220-238 | the same at the back |
| `Encoding.Encoder.PrependByteArrayBlock` | ndn-cxx-ndn-cxx-0.5.1/src/encoding/encoder.cpp:240-248 | type, length and value, written backwards, come out as one TLV element before the old contents |
| `Encoding.Encoder.AppendByteArrayBlock` | ndn-cxx-ndn-cxx-0.5.1/src/encoding/encoder.cpp:250-258 | the same element, written forwards, after the old contents |
| `Encoding.Encoder.Run` | ndn-cxx-ndn-cxx-0.5.1/src/encoding/encoder.cpp:27-280 | for any interleaving of prepends and appends of octets, arrays, VAR-NUMBERs, nonNegativeIntegers and blocks, and of all three reserve calls, from any state: the contents are the concatenation the calls describe and the sizes returned add up to what was added |
| `Encoding.EstimateIsExact` | ndn-cxx-ndn-cxx-0.5.1/src/encoding/estimator.cpp:31-137 | for every nested packet description the Estimator returns exactly the number of octets of its encoding |
| `Encoding.Encode` | ndn-cxx-ndn-cxx-0.5.1/src/encoding/encoder.cpp:200-280 | a wireEncode template run on the Encoder puts exactly the TLV octets of its description in front and returns their number |
| `Encoding.EncodeNumber` | ndn-cxx-ndn-cxx-0.5.1/src/encoding/block-helpers.cpp:27-37 | prependNonNegativeIntegerBlock puts exactly the element of the number in front, with its length |
| `Encoding.EncodeTight` | ndn-cxx-ndn-cxx-0.5.1/src/encoding/block-helpers.cpp:48-58 | estimate, reserve (estimate, 0), encode: the reserved buffer is never replaced and ends filled to the last octet |
| `Blocks.ReadElementWellFormed` | ndn-cxx-ndn-cxx-0.5.1/src/encoding/block.cpp:326-345 | what is read off the front of a buffer is, taken alone, an encoding of the same type and value |
| `Blocks.ReadElementIsLocal` | ndn-cxx-ndn-cxx-0.5.1/src/encoding/block.cpp:326-345 | an element that is followed by anything reads the same |
| `Blocks.WrittenElementReads` | ndn-cxx-ndn-cxx-0.5.1/src/encoding/block.cpp:354-406 | the shortest encoding of any type and value reads back as that type and value and nothing more |
| `Blocks.OverrunMeans` | ndn-cxx-ndn-cxx-0.5.1/src/encoding/block.cpp:326-345 | behind a readable header the element overruns iff its length exceeds the octets left, and otherwise its value is that many of them |
| `Blocks.UnreadableMeans` | ndn-cxx-ndn-cxx-0.5.1/src/encoding/block.cpp:326-345 | a header cut short, or a type of more than 32 bits, is unreadable, which is another error than an overrun |
| `Blocks.ScanStops` | ndn-cxx-ndn-cxx-0.5.1/src/encoding/block.cpp:326-345 | parsing stops with an error exactly where, behind the elements read, no element can be read, and with the error of that place |
| `Blocks.ScanPartitions` | ndn-cxx-ndn-cxx-0.5.1/src/encoding/block.cpp:321-352 | on every octet string, terminating, the parsed elements are well formed and are a partition of a prefix; of the whole string iff there is no error |
| `Blocks.ScanUndoesConcat` | ndn-cxx-ndn-cxx-0.5.1/src/encoding/block.cpp:321-406 | parse undoes encode for every list of sub-blocks, with wire or value only: same types, same values, same order, no error |
| `Blocks.ReadersAgree` | ndn-cxx-ndn-cxx-0.5.1/src/encoding/block.cpp:252-352 | fromBuffer finds exactly the first element of the parse; blockFromValue and the whole-buffer constructors accept exactly the buffers that parse to one element |
| `Blocks.Block.constructor` | ndn-cxx-ndn-cxx-0.5.1/src/encoding/block.cpp:195-198 | a block of a type with neither wire, value nor sub-blocks |
| `Blocks.Block.Parse` | ndn-cxx-ndn-cxx-0.5.1/src/encoding/block.cpp:321-352 | does nothing on a parsed block or one without value; otherwise leaves the scanned elements, none when a length overruns, and those before it when a type or length cannot be read |
| `Blocks.Block.ParseTwice` | ndn-cxx-ndn-cxx-0.5.1/src/encoding/block.cpp:321-352 | a second parse after a failed one reports success iff the failure was an unreadable header behind at least one element |
| `Blocks.ParseTruncated` | ndn-cxx-ndn-cxx-0.5.1/src/encoding/block.cpp:321-352 | on the value 08 00 FD the first parse fails and the second succeeds |
| `Blocks.Block.Encode` | ndn-cxx-ndn-cxx-0.5.1/src/encoding/block.cpp:354-406 | keeps an existing wire; a block with a value becomes type, length and that value; one without becomes type, length and the concatenation of its sub-blocks, each with the wire it has, so that parsing the new value gives every sub-block back in order; fails, with nothing changed, iff there is no wire, no value, and a sub-block with neither |
| `Blocks.TotalSize` | ndn-cxx-ndn-cxx-0.5.1/src/encoding/block.cpp:374-377 | the length the first loop adds up is the length of what the second loop writes, or the error of the first sub-block with no size |
| `Blocks.WriteElements` | ndn-cxx-ndn-cxx-0.5.1/src/encoding/block.cpp:381-391 | the second loop appends every sub-block in order |
| `Blocks.Block.PushBack` | ndn-cxx-ndn-cxx-0.5.1/src/encoding/block.cpp:567-572 | drops wire and value and adds the element behind the others |
| `Blocks.Block.Remove` | ndn-cxx-ndn-cxx-0.5.1/src/encoding/block.cpp:426-434 | drops wire and value and keeps, in order, the sub-blocks of other types |
| `Blocks.WithoutIsFilter` | ndn-cxx-ndn-cxx-0.5.1/src/encoding/block.cpp:426-434 | at every place in the list the element stays iff its type is another one |
| `NameComponents.CanonicalIsTotal` | ndn-cxx-ndn-cxx-0.5.1/src/name-component.cpp:394-417 | canonical order is total and antisymmetric, equal only on equal components, and agrees with comparing type, length and the number the value spells |
| `NameComponents.RankIsCanonical` | ndn-cxx-ndn-cxx-0.5.1/src/name-component.cpp:394-417 | canonical order embeds in the integers: smaller rank iff smaller component |
| `NameComponents.WireComparison` | ndn-cxx-ndn-cxx-0.5.1/src/name-component.cpp:394-402 | what memcmp over two wires really orders by, on any encodings: size of the type field, type, size of the length field, length, value |
| `NameComponents.MinimalWireOrder` | ndn-cxx-ndn-cxx-0.5.1/src/name-component.cpp:394-402 | on shortest encodings that is canonical order |
| `NameComponents.CompareIsCanonical` | ndn-cxx-ndn-cxx-0.5.1/src/name-component.cpp:385-417 | for any mix of components with shortest wires and without wires, the sign of compare is canonical order, and it is zero iff equals |
| `NameComponents.WireIsCanonicalIffMinimal` | ndn-cxx-ndn-cxx-0.5.1/src/name-component.cpp:394-402 | a wire compares canonically with every shortest wire iff it is a shortest encoding itself |
| `NameComponents.FieldsAreCanonicalIff` | ndn-cxx-ndn-cxx-0.5.1/src/name-component.cpp:405-416 | without two wires, components of one type compare canonically iff the size difference keeps its sign as an int |
| `NameComponents.CompareIsTransitive` | ndn-cxx-ndn-cxx-0.5.1/src/name-component.cpp:394-417 | so compare is one antisymmetric and transitive order over such a mix |
| `NameComponents.LongerWireComesAfter` | ndn-cxx-ndn-cxx-0.5.1/src/name-component.cpp:394-402 | a component whose wire is not the shortest compares as greater than itself with the shortest wire |
| `NameComponents.CompareDeviates` | ndn-cxx-ndn-cxx-0.5.1/src/name-component.cpp:394-417 | concrete components on which compare is not canonical: a length field longer than needed, and sizes 2^31 apart |
| `NameComponents.SuccessorIsImmediate` | ndn-cxx-ndn-cxx-0.5.1/src/name-component.cpp:419-445 | the successor is greater, nothing lies between, and it is a component unless the argument is the largest digest |
| `NameComponents.NextRank` | ndn-cxx-ndn-cxx-0.5.1/src/name-component.cpp:419-445 | stepping to the successor, or from the largest digest to the empty generic component, is adding one to the rank |
| `NameComponents.GetSuccessor` | ndn-cxx-ndn-cxx-0.5.1/src/name-component.cpp:419-445 | the method returns that successor for every component with wire or value; it fails for the largest digest and for a default-constructed component |
| `NameComponents.EncodeSuccessorValue` | ndn-cxx-ndn-cxx-0.5.1/src/name-component.cpp:423-441 | the carrying loop and the overflow octet leave the next octet string of the same length, or the first longer one, in the encoder |
| `NameComponents.NumberWithMarkerRoundTrip` | ndn-cxx-ndn-cxx-0.5.1/src/name-component.cpp:197-314 | a 64-bit number behind a marker is read back, so distinct numbers make distinct components |
| `NameComponents.NumberWithMarkerMeans` | ndn-cxx-ndn-cxx-0.5.1/src/name-component.cpp:197-255 | exactly the marker with one, two, four or eight octets behind it is a number, the one they spell in network order |
| `Names.OrderIsTotal` | ndn-cxx-ndn-cxx-0.5.1/src/name.cpp:323-338 | order on names is antisymmetric and zero only on equal names |
| `Names.OrderIsTransitive` | ndn-cxx-ndn-cxx-0.5.1/src/name.cpp:323-338 | and transitive |
| `Names.Compare` | ndn-cxx-ndn-cxx-0.5.1/src/name.cpp:323-338 | on all 64-bit positions and counts: throws iff a component is to be looked at and a position denotes none, being neither at most the size nor, read as a negative index by at(), within the name; otherwise the sign of canonical order of the components looked at |
| `Names.AccessIsView` | ndn-cxx-ndn-cxx-0.5.1/src/name.hpp:434-442 | at() with its signed index finds, for each access of compare, the component of the view: from a position counted from the end the accesses go on at the beginning |
| `Names.GetSubName` | ndn-cxx-ndn-cxx-0.5.1/src/name.cpp:261-278 | the components from a start, possibly counted from the end, to a clipped end, with the unsigned sum of start and count |
| `Names.SubNameMeans` | ndn-cxx-ndn-cxx-0.5.1/src/name.cpp:261-278 | without a count: everything from a position, or the last -i components, or the whole name when there are fewer; with a count below 2^63: that many of these, or all |
| `Names.SeenIsSubNameIff` | ndn-cxx-ndn-cxx-0.5.1/src/name.hpp:471-478 | on all positions and counts: what compare takes a sub-name to be is what getSubName returns, as documented, iff, from a position at most the size, position plus count stays below 2^64 or there is nothing to look at; from one counted from the end, the count does not reach past the end; from any other, the count is zero |
| `Names.CountsBeyond` | ndn-cxx-ndn-cxx-0.5.1/src/name.cpp:326-337 | positions that denote no component still count components, as many as zero only when zero are asked for |
| `Names.PhantomComponents` | ndn-cxx-ndn-cxx-0.5.1/src/name.cpp:326-337 | five components from position 2 of a name of one count as five, where the documented sub-name is empty |
| `Names.IsPrefixOf` | ndn-cxx-ndn-cxx-0.5.1/src/name.cpp:307-321 | true iff a prefix |
| `Names.GetSuccessor` | ndn-cxx-ndn-cxx-0.5.1/src/name.cpp:280-291 | the last component is replaced by its successor; fails exactly when that does |
| `Names.SuccessorDelimitsSubtree` | ndn-cxx-ndn-cxx-0.5.1/src/name.cpp:280-338 | for every non-empty name x whose successor exists, the names z with x <= z < successor(x) are exactly those with prefix x |
| `Names.RootSuccessor` | ndn-cxx-ndn-cxx-0.5.1/src/name.cpp:280-291 | the successor of the empty name is not such a bound: exactly what lies below it |
| `NameUris.ToUri` | ndn-cxx-ndn-cxx-0.5.1/src/name-component.cpp:130-178 | the printing loops produce the digest form, the dots form, or percent-encoding with upper-case hexadecimal |
| `NameUris.HexRoundTrip` | ndn-cxx-ndn-cxx-0.5.1/src/util/string-helper.cpp:33-107 | fromHex undoes printHex |
| `NameUris.EscapeRoundTrip` | ndn-cxx-ndn-cxx-0.5.1/src/util/string-helper.cpp:127-152 | unescape undoes percent-encoding, and the encoding uses unreserved characters and % only |
| `NameUris.ComponentRoundTrip` | ndn-cxx-ndn-cxx-0.5.1/src/name-component.cpp:91-178 | every component, empty, all-dots and digest included, is read back from its URI; no generic component reads as a digest |
| `NameUris.ComponentUriCharacters` | ndn-cxx-ndn-cxx-0.5.1/src/name-component.cpp:130-178 | a printed component is never empty and has no slash, colon or whitespace |
| `NameUris.ParseStripped` | ndn-cxx-ndn-cxx-0.5.1/src/name.cpp:98-108 | the component loop of the constructor splits at slashes, a trailing slash adding no component, and stops at the first illegal component |
| `NameUris.DecorationIsStripped` | ndn-cxx-ndn-cxx-0.5.1/src/name.cpp:62-96 | a scheme with its colon, an authority after two slashes and surrounding whitespace do not change what is left for the component loop |
| `NameUris.AuthorityAlone` | ndn-cxx-ndn-cxx-0.5.1/src/name.cpp:80-91 | an authority with nothing behind it leaves nothing |
| `NameUris.RelativeIsKept` | ndn-cxx-ndn-cxx-0.5.1/src/name.cpp:62-96 | without a leading slash, and with no colon in the first stretch, everything behind whitespace and scheme is left as it is |
| `NameUris.JoinedParses` | ndn-cxx-ndn-cxx-0.5.1/src/name.cpp:98-108 | any stretches joined by slashes give their components in order, an empty last one none, or the error of the first illegal one |
| `NameUris.SpaceAround` | ndn-cxx-ndn-cxx-0.5.1/src/name-component.cpp:92-95 | whitespace around a stretch does not matter |
| `NameUris.IllegalMeans` | ndn-cxx-ndn-cxx-0.5.1/src/name-component.cpp:91-128 | which stretches are illegal: unescaped, the empty one, "." and ".."; and those that begin with sha256digest= without exactly 64 hexadecimal digits behind it |
| `NameUris.PlainStretch` | ndn-cxx-ndn-cxx-0.5.1/src/name-component.cpp:91-128 | a legal stretch without escapes stands for itself, or if it is all dots for itself without three of them |
| `NameUris.EscapeReads` | ndn-cxx-ndn-cxx-0.5.1/src/util/string-helper.cpp:127-152 | a percent sign and two hexadecimal digits are the octet they spell; any other percent sign stands for itself |
| `NameUris.CharacterClasses` | ndn-cxx-ndn-cxx-0.5.1/src/name-component.cpp:158-171 | which octets are printed as they are, which are hexadecimal digits, and which are whitespace |
| `NameUris.PrintedForms` | ndn-cxx-ndn-cxx-0.5.1/src/name-component.cpp:130-178 | escapes in upper case, digests in lower case behind sha256digest=, three dots in front of dots |
| `NameUris.ParseName` | ndn-cxx-ndn-cxx-0.5.1/src/name.cpp:62-109 | the printed form of any name, with its leading slash or without, is read back as that name, whatever scheme, authority and whitespace are put around it; and any stretches joined by slashes, behind a leading slash or not, give the components they stand for in order, an empty last stretch adding none, or the error of the first illegal one |
| `NameUris.UriRoundTrip` | ndn-cxx-ndn-cxx-0.5.1/src/name.cpp:340-355 | parsing the printed URI of any name returns the name |
| `NameUris.RelativeRoundTrip` | ndn-cxx-ndn-cxx-0.5.1/src/name.cpp:62-109 | and so does parsing it without its leading slash, for every non-empty name |
| `ExcludeMaps.AboveIsCanonical` | ndn-cxx-ndn-cxx-0.5.1/src/exclude.cpp:50-55 | operator> on keys is canonical order with negative infinity below everything, and total |
| `ExcludeMaps.IsExcludedIsMembership` | ndn-cxx-ndn-cxx-0.5.1/src/exclude.cpp:216-223 | one lower_bound decides membership in the union of all points and ranges the entries stand for |
| `ExcludeMaps.OneIsUnion` | ndn-cxx-ndn-cxx-0.5.1/src/exclude.cpp:225-233 | excludeOne excludes exactly one more component |
| `ExcludeMaps.AfterIsUnion` | ndn-cxx-ndn-cxx-0.5.1/src/exclude.cpp:295-315 | excludeAfter excludes exactly the old set and the ray from `from` |
| `ExcludeMaps.RangeMeans` | ndn-cxx-ndn-cxx-0.5.1/src/exclude.cpp:259-293 | the exact set after excludeRange and excludeBefore: old set and [from, to], minus what lies strictly between `to` and the next key in the one branch that cuts a range short |
| `ExcludeMaps.RangeIsUnionIff` | ndn-cxx-ndn-cxx-0.5.1/src/exclude.cpp:259-293 | the union law holds for all components iff that branch is not taken or the next key is the immediate next component of `to` |
| `ExcludeMaps.RangeLosesNext` | ndn-cxx-ndn-cxx-0.5.1/src/exclude.cpp:279-284 | otherwise the component right after `to` was excluded and no longer is |
| `ExcludeMaps.RangeAfterRay` | ndn-cxx-ndn-cxx-0.5.1/src/exclude.cpp:259-315 | excludeAfter(a) then excludeRange(b, c) loses every d above c |
| `ExcludeMaps.OneKeepsShape` | ndn-cxx-ndn-cxx-0.5.1/src/exclude.cpp:225-233 | excludeOne keeps entries sorted and neighbouring ranges combined |
| `ExcludeMaps.RangeIsValid` | ndn-cxx-ndn-cxx-0.5.1/src/exclude.cpp:259-293 | the splice keeps entries sorted, with negative infinity only as the start of a range |
| `ExcludeMaps.FromHereShape` | ndn-cxx-ndn-cxx-0.5.1/src/exclude.cpp:295-315 | excludeAfter keeps neighbouring ranges combined iff `from` does not close an existing range |
| `ExcludeMaps.RangeShape` | ndn-cxx-ndn-cxx-0.5.1/src/exclude.cpp:259-293 | excludeRange likewise; excludeBefore always does |
| `ExcludeRanges.EnumerationIsExactIff` | ndn-cxx-ndn-cxx-0.5.1/src/exclude.cpp:365-424 | begin()..end() yields exactly the excluded components iff every entry that operator++ skips as a high limit either starts no range or one that ends at its immediate next component |
| `ExcludeRanges.SkippedIsMissed` | ndn-cxx-ndn-cxx-0.5.1/src/exclude.cpp:373-384 | otherwise the component right after such an entry is excluded and in no range yielded |
| `ExcludeRanges.RangesAreExact` | ndn-cxx-ndn-cxx-0.5.1/src/exclude.cpp:365-424 | in particular the ranges are exact when no two neighbouring entries carry ANY |
| `ExcludeRanges.RangesAscend` | ndn-cxx-ndn-cxx-0.5.1/src/exclude.cpp:365-424 | they ascend and are disjoint |
| `ExcludeRanges.ConstIterator.constructor` | ndn-cxx-ndn-cxx-0.5.1/src/exclude.cpp:365-371 | a begin iterator stands at the lowest entry |
| `ExcludeRanges.ConstIterator.Update` | ndn-cxx-ndn-cxx-0.5.1/src/exclude.cpp:394-424 | m_range is the point or range at the current entry |
| `ExcludeRanges.ConstIterator.Increment` | ndn-cxx-ndn-cxx-0.5.1/src/exclude.cpp:373-384 | advances over one entry, or over both ends of a range |
| `ExcludeRanges.Enumerate` | ndn-cxx-ndn-cxx-0.5.1/src/exclude.cpp:365-424 | iterating from begin to end yields those ranges |
| `ExcludeRanges.JoinedRanges` | ndn-cxx-ndn-cxx-0.5.1/src/exclude.cpp:259-293 | excludeRange(a, b) then excludeRange(b, c) leaves two neighbouring entries with ANY |
| `ExcludeRanges.EnumerationMissesJoinedRange` | ndn-cxx-ndn-cxx-0.5.1/src/exclude.cpp:373-384 | on that map the enumeration yields [a, b] and {c}, missing everything between b and c although it is excluded |
| `Excludes.DecodeIsValid` | ndn-cxx-ndn-cxx-0.5.1/src/exclude.cpp:154-205 | whatever is decoded, in any order and with duplicates, leaves entries sorted in canonical order of their contents |
| `Excludes.DecodeAccepts` | ndn-cxx-ndn-cxx-0.5.1/src/exclude.cpp:168-195 | decoding accepts exactly Any? (NameComponent Any?)* with at least one element |
| `Excludes.AcceptedIsDocumentedIff` | ndn-cxx-ndn-cxx-0.5.1/src/exclude.cpp:168-195 | of what is accepted, only the lone Any is outside the commented grammar |
| `Excludes.DocumentedIsAccepted` | ndn-cxx-ndn-cxx-0.5.1/src/exclude.cpp:168-195 | all of the commented grammar is accepted; so is the lone Any, which excludes everything |
| `ExcludeShapes.DecodedEntries` | ndn-cxx-ndn-cxx-0.5.1/src/exclude.cpp:168-205 | the decoded map holds, for each key listed on the wire, its first entry |
| `ExcludeShapes.DecodedIsCombinedIff` | ndn-cxx-ndn-cxx-0.5.1/src/exclude.cpp:168-205 | a decoded map has neighbouring ranges combined iff the wire lists no two adjoining ranges |
| `ExcludeShapes.AdjoiningRangesOnWire` | ndn-cxx-ndn-cxx-0.5.1/src/exclude.cpp:168-205 | the accepted wire a Any b Any decodes to neighbouring ANY entries and is enumerated as [a, b] |
| `ExcludeKeys.StoredIsExcludedIsContent` | ndn-cxx-ndn-cxx-0.5.1/src/exclude.cpp:216-223 | on keys as stored, with or without wires, ordered by compare: isExcluded is the canonical one when all wires are shortest |
| `ExcludeKeys.ListedIsFoundIff` | ndn-cxx-ndn-cxx-0.5.1/src/exclude.cpp:154-223 | in any map decoded from a wire, ordered by compare, a component asked for with its shortest wire is excluded iff it is listed with that wire or lies in a range |
| `ExcludeKeys.KeyFindsItselfIff` | ndn-cxx-ndn-cxx-0.5.1/src/exclude.cpp:216-223 | a component listed alone excludes itself, asked for with its shortest wire, iff the wire it was read from is the shortest |
| `ExcludeKeys.LongKeyIsLost` | ndn-cxx-ndn-cxx-0.5.1/src/exclude.cpp:216-223 | a listed b whose length takes three octets does not exclude b |
| `Excludes.DecodeUndoesElements` | ndn-cxx-ndn-cxx-0.5.1/src/exclude.cpp:105-205 | decoding the elements of any non-empty map gives the map back |
| `Excludes.ElementsAscend` | ndn-cxx-ndn-cxx-0.5.1/src/exclude.cpp:105-129 | components are encoded in canonical order, lowest first and none twice |
| `Excludes.DecodeWireAccepts` | ndn-cxx-ndn-cxx-0.5.1/src/exclude.cpp:154-196 | accepted off the wire is exactly one whole element of type 16 whose value parses without error into the grammar |
| `Excludes.ComponentsMean` | ndn-cxx-ndn-cxx-0.5.1/src/name-component.cpp:57-63 | components on the wire are generic ones and digests of 32 octets, taken with type and value |
| `Excludes.WireRoundTrip` | ndn-cxx-ndn-cxx-0.5.1/src/exclude.cpp:105-205 | decoding the encoded octets of any non-empty map gives the map back, hence the same excluded set |
| `Excludes.Exclude.constructor` | ndn-cxx-ndn-cxx-0.5.1/src/exclude.cpp:98-98 | no entries, no cached wire |
| `Excludes.Exclude.ExcludeOne` | ndn-cxx-ndn-cxx-0.5.1/src/exclude.cpp:225-233 | in-place excludeOne: entries, excluded set, shape, and the wire dropped only on change |
| `Excludes.Exclude.PlaceFrom` | ndn-cxx-ndn-cxx-0.5.1/src/exclude.cpp:267-277 | lower_bound, emplace and flag update leave at `newFrom` an entry with ANY that covers `from`, the greater entries untouched |
| `Excludes.Exclude.EraseBetween` | ndn-cxx-ndn-cxx-0.5.1/src/exclude.cpp:279-289 | lower_bound, emplace_hint and erase leave exactly the greater entries, at most one closing entry, and the entries from `newFrom` on |
| `Excludes.Exclude.ExcludeRangeFrom` | ndn-cxx-ndn-cxx-0.5.1/src/exclude.cpp:259-293 | in-place excludeRange: refuses ranges that do not ascend with nothing changed; otherwise the exact excluded set and shape, the wire dropped |
| `Excludes.Exclude.ExcludeRange` | ndn-cxx-ndn-cxx-0.5.1/src/exclude.cpp:241-245 | the public form |
| `Excludes.Exclude.ExcludeBefore` | ndn-cxx-ndn-cxx-0.5.1/src/exclude.cpp:235-239 | the form from negative infinity, never an error, always keeping the shape |
| `Excludes.Exclude.ExcludeAfter` | ndn-cxx-ndn-cxx-0.5.1/src/exclude.cpp:295-315 | in-place excludeAfter: union with the ray, shape kept iff `from` closes no range |
| `Excludes.Exclude.Clear` | ndn-cxx-ndn-cxx-0.5.1/src/exclude.cpp:358-363 | no entries and no wire |
| `Excludes.Exclude.WireEncode` | ndn-cxx-ndn-cxx-0.5.1/src/exclude.cpp:138-152 | returns the cached wire, refuses the empty selector, otherwise encodes the entries and caches a wire that decodes to them |
| `Excludes.Exclude.WireDecode` | ndn-cxx-ndn-cxx-0.5.1/src/exclude.cpp:154-196 | the imperative loop decodes as above; a rejected wire of the right type stays cached beside the entries read so far |
| `ExcludeRuns.CallRefinesUnion` | ndn-cxx-ndn-cxx-0.5.1/src/exclude.cpp:225-315 | one mutator call never excludes more than asked, and exactly old set plus request iff it does not cut a range short |
| `ExcludeRuns.RunRefinesUnion` | ndn-cxx-ndn-cxx-0.5.1/src/exclude.cpp:225-315 | after any sequence of calls the selector excludes only what was asked for, and all of it unless some call cut a range short |
| `ExcludeRuns.Run` | ndn-cxx-ndn-cxx-0.5.1/src/exclude.cpp:225-315 | the in-place methods, called in any order from an empty selector, compute those entries |
| `Interests.MatchersAgree` | ndn-cxx-ndn-cxx-0.5.1/src/interest.cpp:104-213 | matchesData(d) holds iff matchesName of the full name of d holds and the publisher check passes, for every Interest and Data |
| `Interests.MatchesNameMeans` | ndn-cxx-ndn-cxx-0.5.1/src/interest.cpp:104-130 | for every Interest with a sorted exclude selector: a name matches iff the Interest name is a prefix of it, the number of further components is within the bounds set, and the first of them, if any, is no point and lies in no range of the exclude selector |
| `Interests.MatchesDataMeans` | ndn-cxx-ndn-cxx-0.5.1/src/interest.cpp:131-213 | a Data packet matches iff its full name, digest included, does so and its key locator is the one asked for, if any |
| `InterestPackets.WireEncode` | ndn-cxx-ndn-cxx-0.5.1/src/interest.cpp:223-300 | estimate-then-encode yields as many octets as estimated, and decoding them gives name, selectors, nonce, lifetime, link and delegation back |
| `InterestPackets.InterestRoundTrip` | ndn-cxx-ndn-cxx-0.5.1/src/interest.cpp:223-369 | decoding the encoded octets of any Interest whose sizes fit gives back every field, absent numbers as -1 and an absent lifetime as 4000 |
| `InterestPackets.SelectorsDecode` | ndn-cxx-ndn-cxx-0.5.1/src/selectors.cpp:59-180 | decoding the encoded Selectors gives all six back |
| `InterestPackets.NameDecodes` | ndn-cxx-ndn-cxx-0.5.1/src/name.cpp:120-168 | decoding the encoded Name gives its components back, in order |
| `InterestPackets.ElementOrder` | ndn-cxx-ndn-cxx-0.5.1/src/interest.cpp:229-275 | the elements of the packet by their type numbers, in terms of the Interest alone: Name, Selectors iff one is set, Nonce, InterestLifetime iff not negative and not 4000, link, SelectedDelegation |
| `InterestPackets.SelectorOrder` | ndn-cxx-ndn-cxx-0.5.1/src/selectors.cpp:59-111 | and the selectors among themselves, each iff it is set |
| `InterestPackets.FreshInterest` | ndn-cxx-ndn-cxx-0.5.1/src/interest.cpp:223-300 | one Interest, octet by octet |
| `InterestPackets.FieldsParseBack` | ndn-cxx-ndn-cxx-0.5.1/src/interest.cpp:223-276 | parsing the value of any encoded packet returns its fields: same types and values, in order, none more |
| `Faces.FaceImpl.constructor` | ndn-cxx-ndn-cxx-0.5.1/src/detail/face-impl.hpp:58-74 | nothing pending, nothing armed |
| `Faces.FaceImpl.EnsureConnected` | ndn-cxx-ndn-cxx-0.5.1/src/detail/face-impl.hpp:270-281 | afterwards connected or connecting; with wantResume receiving, or connecting |
| `Faces.FaceImpl.AsyncExpress` | ndn-cxx-ndn-cxx-0.5.1/src/detail/face-impl.hpp:76-105 | from the io_service or inside a callback: one more pending entry with an armed timer, at the end of the table, the invariant kept in whatever callback is running |
| `Faces.FaceImpl.RunCallback` | ndn-cxx-ndn-cxx-0.5.1/src/detail/face-impl.hpp:119-148 | the Interests a callback expresses are appended in order, the invariant kept throughout |
| `Faces.FaceImpl.Answer` | ndn-cxx-ndn-cxx-0.5.1/src/detail/face-impl.hpp:124-126 | erase then call back: the entry leaves the table before its one callback, whose own Interests are appended |
| `Faces.FaceImpl.InvokeMatching` | ndn-cxx-ndn-cxx-0.5.1/src/detail/face-impl.hpp:119-148 | the loop over the growing list calls back, once each and in table order, exactly the matching entries it visits, and leaves the others it visits and, if its last entry matched, what that callback appended behind end() |
| `Faces.FaceImpl.SatisfyPendingInterests` | ndn-cxx-ndn-cxx-0.5.1/src/detail/face-impl.hpp:119-132 | this for Data |
| `Faces.FaceImpl.NackPendingInterests` | ndn-cxx-ndn-cxx-0.5.1/src/detail/face-impl.hpp:134-148 | this for Nacks |
| `PendingPasses.PassPartitions` | ndn-cxx-ndn-cxx-0.5.1/src/detail/face-impl.hpp:119-148 | visited and unvisited entries are the pending and the appended ones, in order |
| `PendingPasses.PassAppends` | ndn-cxx-ndn-cxx-0.5.1/src/detail/face-impl.hpp:119-148 | exactly what the callbacks of the matching visited entries express is appended |
| `PendingPasses.PassVisitsPending` | ndn-cxx-ndn-cxx-0.5.1/src/detail/face-impl.hpp:119-148 | every entry pending when the packet arrived is visited |
| `PendingPasses.PassStopsAtEnd` | ndn-cxx-ndn-cxx-0.5.1/src/detail/face-impl.hpp:119-148 | the loop stops at the first entry behind which nothing stands when it is handled: appended by earlier callbacks counts, by its own does not |
| `PendingPasses.AnsweredOnlyPendingIff` | ndn-cxx-ndn-cxx-0.5.1/src/detail/face-impl.hpp:119-148 | a packet is answered only by entries pending at its arrival iff the last of them matches with nothing appended before it is erased, or nothing their callbacks express matches |
| `Faces.FaceImpl.InvokeTimeoutCallback` | ndn-cxx-ndn-cxx-0.5.1/src/detail/pending-interest.hpp:110-123 | the timeout callback runs once, while the entry is in the table; the deleter then erases exactly that entry |
| `Faces.FaceImpl.Erase` | ndn-cxx-ndn-cxx-0.5.1/src/detail/container-with-on-empty-signal.hpp:65-73 | one entry goes; the empty event is posted iff none is left |
| `Faces.FaceImpl.AsyncRemovePendingInterest` | ndn-cxx-ndn-cxx-0.5.1/src/detail/face-impl.hpp:107-111 | exactly the entry with the id goes, without callback; the empty event is posted whenever the table is empty |
| `Faces.FaceImpl.AsyncRemoveAllPendingInterests` | ndn-cxx-ndn-cxx-0.5.1/src/detail/face-impl.hpp:113-117 | every waiting Interest is removed without callback |
| `Faces.FaceImpl.OnPostedEmpty` | ndn-cxx-ndn-cxx-0.5.1/src/detail/face-impl.hpp:283-292 | a posted empty event pauses the transport iff both tables are still empty: a stale one does nothing |
| `Faces.FaceImpl.FinalizeUnregisterPrefix` | ndn-cxx-ndn-cxx-0.5.1/src/detail/face-impl.hpp:259-268 | the empty event is posted when the last registered prefix goes |
| `Faces.FaceImpl.ConnectHandler` | ndn-cxx-ndn-cxx-0.5.1/src/transport/stream-transport-impl.hpp:127-147 | connected and receiving, whatever was asked for while connecting |
| `Faces.FaceImpl.CloseTransport` | ndn-cxx-ndn-cxx-0.5.1/src/transport/stream-transport-impl.hpp:70-83 | a closing transport keeps the accounting; transport receiving while anything is pending survives iff nothing is |
| `Faces.FaceImpl.Fail` | ndn-cxx-ndn-cxx-0.5.1/src/face.cpp:488-494 | when the transport error reaches processEvents both tables are emptied, no callback is invoked, and the transport is down |
| `Faces.FaceImpl.AsyncShutdown` | ndn-cxx-ndn-cxx-0.5.1/src/face.cpp:504-514 | both tables are emptied; a connected transport is closed, a connecting one is not |
| `Faces.FaceImpl.Handle` | ndn-cxx-ndn-cxx-0.5.1/src/detail/face-impl.hpp:76-292 | every event the io_service can run has exactly its own effect on table, callbacks, posted signals and transport, none at all if it is not due, and keeps the invariant: pending is exactly waiting, timers exactly the pending entries, one callback per reported fate, transport receiving or connecting while anything is pending |
| `Faces.FaceImpl.Run` | ndn-cxx-ndn-cxx-0.5.1/src/detail/face-impl.hpp:58-292 | over all runs: each event has its effect on the state the earlier ones left, the invariant holds in every state between, and no fate or callback is ever revised |
| `Faces.ExpressKeeps` | ndn-cxx-ndn-cxx-0.5.1/src/detail/face-impl.hpp:83-88 | expressing keeps the accounting in every state, also inside a callback |
| `Faces.AnswerBegins` | ndn-cxx-ndn-cxx-0.5.1/src/detail/face-impl.hpp:124-126 | erasing a matched entry moves it from waiting to satisfied or nacked, its record still alive |
| `Faces.TimeoutEnds` | ndn-cxx-ndn-cxx-0.5.1/src/detail/pending-interest.hpp:121-123 | after its callback the entry is still there to be erased |
| `Faces.RemoveKeeps` | ndn-cxx-ndn-cxx-0.5.1/src/detail/face-impl.hpp:107-111 | a removed entry was waiting and its timer goes with it |
| `PendingPasses.PassFeedsItself` | ndn-cxx-ndn-cxx-0.5.1/src/detail/face-impl.hpp:119-132 | if everything matches and each callback expresses one more Interest, two or more pending entries are followed by as many answers as the script has callbacks, a single one by none |
| `Datasets.SegmentationIsComplete` | ndn-cxx-ndn-cxx-0.5.1/src/mgmt/status-dataset-context.cpp:68-106 | the segments of a response concatenate to its octets, are numbered 0, 1, 2, ... with only the last one final, all but the last hold 4400 octets, and there are max(1, ceil(total / 4400)) |
| `Datasets.StatusDatasetContext.constructor` | ndn-cxx-ndn-cxx-0.5.1/src/mgmt/status-dataset-context.cpp:120-132 | a response with nothing appended or sent |
| `Datasets.StatusDatasetContext.Append` | ndn-cxx-ndn-cxx-0.5.1/src/mgmt/status-dataset-context.cpp:68-92 | terminates though an iteration may consume nothing; accepts unless finalized, sending full segments only and never taking one back |
| `Datasets.StatusDatasetContext.End` | ndn-cxx-ndn-cxx-0.5.1/src/mgmt/status-dataset-context.cpp:94-106 | sends the one final segment, also of an empty response: what was sent is then the segmentation of all octets appended |
| `Datasets.StatusDatasetContext.Reject` | ndn-cxx-ndn-cxx-0.5.1/src/mgmt/status-dataset-context.cpp:108-118 | accepted only before anything else: one nack and no segment ever |
| `Datasets.StatusDatasetContext.Run` | ndn-cxx-ndn-cxx-0.5.1/src/mgmt/status-dataset-context.cpp:68-118 | over any sequence of calls, refused ones included: after a first nack one nack and no segment; otherwise no nack, and the full segments of the octets accepted, completed by the final one once finalized |
| `CommandValidation.CommandInterestValidator.constructor` | ndn-cxx-ndn-cxx-0.5.1/src/security/command-interest-validator.cpp:62-74 | no records; a negative grace period becomes zero |
| `CommandValidation.CommandInterestValidator.Cleanup` | ndn-cxx-ndn-cxx-0.5.1/src/security/command-interest-validator.cpp:104-114 | popping from the front removes every expired record and restores the size limit, and each record popped was expired or one too many when it went |
| `CommandValidation.CommandInterestValidator.CheckTimestamp` | ndn-cxx-ndn-cxx-0.5.1/src/security/command-interest-validator.cpp:158-193 | the verdict in terms of the last acceptance of the key that was not evicted: none, within the grace period; some, a greater timestamp; a rejected command leaves the records as they were, an accepted one leaves a single record for its key, last in the queue |
| `CommandValidation.GraceMeans` | ndn-cxx-ndn-cxx-0.5.1/src/security/command-interest-validator.cpp:171-172 | with 64-bit durations that wrap around, the grace period check passes exactly the distances that are, modulo 2^64, within the grace period or 2^63 |
| `CommandValidation.GraceIsExactIff` | ndn-cxx-ndn-cxx-0.5.1/src/security/command-interest-validator.cpp:171-172 | so it is exact iff the distance fits 64 bits, or its remainder modulo 2^64 is neither within the grace period nor 2^63 |
| `CommandValidation.FarTimestampsPass` | ndn-cxx-ndn-cxx-0.5.1/src/security/command-interest-validator.cpp:171-172 | two concrete timestamps, 2^58 and 2^57 milliseconds ahead of the time of receipt, that pass grace periods of two minutes and of zero |
| `CommandValidation.InitialIffNotAcceptedSince` | ndn-cxx-ndn-cxx-0.5.1/src/security/command-interest-validator.cpp:104-114 | with maxTimestamps 0, or timestampTtl not positive, a command is processed as initial iff no command of its key was accepted since the last arrival |
| `CommandValidation.InterleavedCommands` | ndn-cxx-ndn-cxx-0.5.1/src/security/command-interest-validator.cpp:76-102 | with either setting, of two commands of one key that arrive before the first is accepted, the second is refused if it is not newer |
| `CommandValidation.CommandInterestValidator.Run` | ndn-cxx-ndn-cxx-0.5.1/src/security/command-interest-validator.cpp:77-193 | over any run with a monotone clock: keys unique, queue in refresh order, records equal to the last accepted timestamps, the size limit exceeded by at most the commands accepted since the last arrival; the commands accepted are exactly those the verdicts pass, in order |
| `CommandValidation.IncreasingPairs` | ndn-cxx-ndn-cxx-0.5.1/src/security/command-interest-validator.cpp:158-193 | accepted timestamps of a key strictly increase between evictions |
| `CommandValidation.ReplayNeedsEviction` | ndn-cxx-ndn-cxx-0.5.1/src/security/command-interest-validator.cpp:104-193 | in any log that a run leaves: if a command is accepted though not newer than an accepted one of its key, the last acceptance of that key in between was evicted, when it had outlived its lifetime or the queue was over its limit |
| `CommandValidation.PopKeeps` | ndn-cxx-ndn-cxx-0.5.1/src/security/command-interest-validator.cpp:104-114 | popping the front keeps the invariant and evicts that key |
| `CommandValidation.NewKeeps` | ndn-cxx-ndn-cxx-0.5.1/src/security/command-interest-validator.cpp:164-177 | accepting an unknown key keeps it |
| `CommandValidation.RefreshKeeps` | ndn-cxx-ndn-cxx-0.5.1/src/security/command-interest-validator.cpp:178-190 | moving a known key to the back with a greater timestamp keeps it |
| `Dispatching.Dispatcher.constructor` | ndn-cxx-ndn-cxx-0.5.1/src/mgmt/dispatcher.cpp:47-55 | no prefixes, handlers, filters or posts |
| `Dispatching.Dispatcher.AddTopPrefix` | ndn-cxx-ndn-cxx-0.5.1/src/mgmt/dispatcher.cpp:73-108 | refuses a prefix comparable with another; otherwise adds its entry, leaves the others, and installs exactly one filter per handler |
| `Dispatching.Dispatcher.InstallFilters` | ndn-cxx-ndn-cxx-0.5.1/src/mgmt/dispatcher.cpp:99-107 | the loop over the handlers, in any order, adds exactly one filter per handler and remembers each |
| `Dispatching.Dispatcher.RemoveTopPrefix` | ndn-cxx-ndn-cxx-0.5.1/src/mgmt/dispatcher.cpp:110-128 | exactly the filters of that prefix go |
| `Dispatching.Dispatcher.AddRelPrefix` | ndn-cxx-ndn-cxx-0.5.1/src/mgmt/dispatcher.cpp:130-145 | refused once there are top prefixes, or when it is a prefix of a relative prefix or stream name or one of them is a prefix of it, itself included; otherwise added; refused without an overlapping relative prefix iff a stream name comparable with it was posted to |
| `Dispatching.Dispatcher.AddNotificationStream` | ndn-cxx-ndn-cxx-0.5.1/src/mgmt/dispatcher.cpp:333-351 | the same, with a counter at zero |
| `Dispatching.Dispatcher.PostNotification` | ndn-cxx-ndn-cxx-0.5.1/src/mgmt/dispatcher.cpp:353-370 | posts only with a single top prefix, under the full stream name followed by the counter behind marker 0xFE; the counter is kept under the full stream name and wraps at 2^64 |
| `Dispatching.Dispatcher.Run` | ndn-cxx-ndn-cxx-0.5.1/src/mgmt/dispatcher.cpp:73-370 | over any run: each call has its effect on what the earlier ones left, top prefixes and relative prefixes stay prefix-free, installed filters exactly their product, stream keys exactly the opened streams and the stream names posted to |
| `Dispatching.AtMostOneHandler` | ndn-cxx-ndn-cxx-0.5.1/src/mgmt/dispatcher.cpp:73-145 | in every such state any name is matched by at most one installed filter, which is installed once |
| `Dispatching.DataNamesAreDistinct` | ndn-cxx-ndn-cxx-0.5.1/src/mgmt/dispatcher.cpp:353-370 | as long as a stream has had at most 2^64 notifications, none of its Data names is ever posted again, by it or another stream |
| `Dispatching.DataNameIsInjective` | ndn-cxx-ndn-cxx-0.5.1/src/mgmt/dispatcher.cpp:361-366 | the Data name determines stream and sequence number |
| `Dispatching.Dispatcher.PostingBlocksPrefixes` | ndn-cxx-ndn-cxx-0.5.1/src/mgmt/dispatcher.cpp:130-145 | after posting and removing the top prefix, a relative prefix comparable with the stream name is refused although it overlaps no relative prefix |
| `Letters.RunsAreMaximal` | lib/processing.cpp:61-118 | the runs used as reference are maximal, ordered and separated by blank columns |
| `Letters.RunsAreComplete` | lib/processing.cpp:61-118 | and every non-blank column is in one |
| `Letters.ScanColumn` | lib/processing.cpp:73-84 | one pass over a column moves the edges to its first dark row and to the row after its last dark row that a blank row follows |
| `Letters.ColumnBottomIsEdge` | lib/processing.cpp:73-84 | that row is the last one that is blank behind a dark one |
| `Letters.BottomIsLowest` | lib/processing.cpp:73-90 | and the bottom of a run is the lowest of its columns |
| `Letters.CutOut` | lib/processing.cpp:92-102 | the copied matrix has one column per column of the run and the original pixels of the box, column by column and row by row |
| `Letters.FindLetters` | lib/processing.cpp:61-118 | what the nested loops return for every rectangular image: one letter per run closed by a blank column, left to right, none if the first column is dark; each with the original pixels, its first row that of the first dark pixel of the run, its end the lowest row after a dark one that is followed by a blank one in its column |
| `Letters.FoundMeans` | lib/processing.cpp:61-118 | the closed form stated by its letters: which runs are returned, and the pixels of each |
| `Letters.SegmentationIsExactIff` | lib/processing.cpp:61-118 | that is one tight letter per maximal run, left to right, iff first column, last column and last row are blank |
| `Letters.DarkPixelsAreBoxed` | lib/processing.cpp:61-118 | every dark pixel lies in the box of exactly one run |
| `Letters.EdgesAreReached` | lib/processing.cpp:61-118 | the boxes are tight: some dark pixel lies in the first row of each and some in the last |

## Left out

Statements deliberately weaker than the source might suggest:

- NameComponents.CompareIsCanonical: assumes shortest wires and, without two wires, sizes less than 2^31 apart, because outside of that compare is not canonical order (WireIsCanonicalIffMinimal, FieldsAreCanonicalIff); sizes an exact multiple of 2^32 apart, where memcmp would overrun, are given the value 0.
- Names.Compare: its order is stated for components with shortest wires and sizes below 2^31, for the same reason, and for counts that differ by less than 2^31; when it throws is stated for all. Names hold fewer than 2^63 components.
- Excludes.WireRoundTrip: assumes that component and total sizes fit 64 bits, as they do in memory.
- InterestPackets.InterestRoundTrip: assumes sizes that fit 64 bits, suffix component counts and child selector below 2^31, which is how the setters hold them, a link that encodes a Data element, a key locator with content that decodes, and a delegation index below the number of delegations the link holds; a delegation beyond them is refused by the decoder.
- Blocks.ScanUndoesConcat: the same for value sizes of sub-blocks without wire, and assumes wires that encode their type and value.
- Excludes.DecodeIsValid: for the same reason it promises the order of the std::map only when the components on the wire are shortest encodings; what lookups then do is stated in ExcludeKeys, a mutable map of such keys is not modelled.
- Excludes.Exclude.WireDecode: takes a block whose wire encodes its type and value; a block without wire would be encoded first. Entries are kept by content, which is the order of the std::map only when the components on the wire are shortest encodings (ExcludeKeys).
- Faces.FaceImpl.InvokeMatching: each callback's Interests come from a finite script, and callbacks past its end express nothing, because the loop of the source need not terminate (PassFeedsItself). How often the empty event is posted meanwhile is bounded from below only; stale ones do nothing.
- Faces.FaceImpl.Fail: a transport error is one that reaches processEvents; runs that go on after one that does not are not modelled, their first state is (CloseTransport).
- CommandValidation.CommandInterestValidator.Run: assumes the steady clock is monotone, which its type promises; the interleaving of arrivals and inner acceptances is arbitrary.
- Letters.FindLetters: assumes columns of equal height, as the image loader produces; on others `at` may throw.
- Encoding.EncodeTight: octets are produced as 64-bit sizes allow; the overflow of `size_t` sums is not modelled.

Not modelled:

- `Block::fromStream` and its size limit, `Block::insert` and `erase` at an iterator, and the sharing of one buffer between blocks; blocks are values.
- The 32-bit narrowing of `m_size` in `Block`, and allocation failure.
- The in-place `Interest::setNonce` and the cached wires of Interest, Selectors and Name: these are values. Links and publisher key locators are kept as their wires, of which only what `Interest::wireDecode` looks at is decoded.
- Data packets beyond name, digest and key locator; the digest is a field instead of a SHA-256 computation.
- `Interest::matchesInterest`, a comparison of names and selectors: the Face takes the Nack matcher as given.
- Printing an Exclude selector, and `operator==` on it.
- Locales: `isspace` in `trim` is taken as in the C locale.
- Sockets, the transmission queue, the connect timer and the scheduler: timers are a set of armed entries, a failed or timed-out connection is one event.
- The registration exchange with the forwarder: prefixes only count as registered or not. Interest filters of the Face and their dispatch to producer callbacks.
- Callbacks that throw, and callbacks that remove filters or prefixes; removal of pending Interests is posted by the source and therefore an event of its own.
- Reuse of a freed Interest's address as PendingInterestId: identifiers are numbers.
- The prefix, version and expiry setters of a status dataset response, and `append` of a block without wire, which throws.
- `parseCommandInterest` and the inner validator. Signed overflow of a duration, undefined in C++, is taken to wrap around.
- Authorization, command processing, the in-memory storage and the sending of replies in the dispatcher; setting and unsetting filters on the Face is immediate.
- `match_letter`, `compare_matrices`, the floating-point `scale_Matrix_to`, and the recognised character of a letter.
- Transports other than their connection state, KeyChain, validators by configuration or regular expression, the NFD strategy, and the producer and consumer programs.
- Remaining per-packet codecs, which repeat the TLV round trip.
