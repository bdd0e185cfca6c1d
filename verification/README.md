# KMIP TTLV in Dafny

A model of the `ttlv` package of kmip-go, the codec for the Tag-Type-Length-Value format of the
OASIS KMIP Specification 1.4 (section 9.1), and of the server shutdown protocol in `requests.go`.

How it fits together:

- `Bytes`, `Bits`: big-endian words, the integer conversions of Go, bitwise operations.
- `BigInteger`: two's complement, sign extension, unpadding, encoding.
- `Wire`: the reader that walks raw bytes (`Tag`, `Type`, `Len`, `FullLen`, `Valid`, `Next`, ...).
  `Grammar` defines derivation trees (`Node`) and their bytes (`Render`) without reference to the
  reader, and proves that reader and grammar agree.
- `Items`, `EncBuf`: one scalar item on the wire, and the buffer that writes headers with a length
  hole and fills it in place. Everything written is stated as the rendering of derivation trees.
- `Trees`: the generic `Value` tree and the `Encoder` with its depth counter and flushing.
- `Scalars`, `Schema`, `Unmarshal`, `StructRoundTrip`: struct marshaling and unmarshaling, over a
  datatype of Go types in place of reflection.
- `Hex`, `Names`, `Registry`, `Json`: names, masks, the enum registry and the JSON mapping at the
  level of JSON trees.
- `Framing`: cutting a stream into messages. `Server`: `Serve`, `Close` and `Shutdown` as
  interleaved atomic steps.
- `Counterexamples`: concrete inputs for the promises that do not hold everywhere.

Loops and updates of the source are methods and classes proved equal to a function; theorems are
about the functions. Where the source does not keep a promise for every input, the theorem is an
if-and-only-if, beside inputs in `Counterexamples` on which the promise fails:

- `Items.ExtendedRange`, `Items.ExactItems`: `ExtendedPastRange`, `EmptyByteString`
- `Hex.DecodeUintExact`: `LongHexText`
- `Names.MaskRoundTrip`: `NegativeMask`, `ZeroMask`
- `Registry.NameLeadsBack`: `ReusedName`
- `Trees.TreeComesBack`: `TreeWithText`
- `StructRoundTrip.RoundTrip`: `StructWithSmallInt`, `TextUnderEnum`, `SecondAnyField`
- `Unmarshaling.PanicsExactly`: `ByteStringIntoBool`, `PanickingMessage`
- `Unmarshaling.InvalidGetsError`, `Unmarshaling.InvalidStructure`: `InvalidMessage`, `PanickingMessage`
- `Json.JsonRoundTrip`: `BooleanTwo`, `WideZero`

Where code and documentation disagree the model follows the code:

- A ByteString that meets a scalar destination panics in reflection instead of giving the
  unsupported-type error every other mismatch gives (`Unmarshaling.PanicsExactly`).
- Unmarshaling is documented to fail on invalid TTLV, but blocks are not checked with `Valid`
  first. Invalid bytes may decode (`InvalidMessage`) or panic (`PanickingMessage`);
  `Unmarshaling.InvalidGetsError` says exactly when they get the error, from types, tags and
  lengths, and `Unmarshaling.InvalidStructure` and `Unmarshaling.ScalarPlaced` what they decode to.
- A field without a tag is documented as ignored; encoding it is an error
  (`ErrNoTag` in `Scalars.Choose`).
- `Close` and `Shutdown` are documented to close or await connections; the code only closes
  listeners.

Behaviour the code has that a caller may not expect, each stated by a member below: a failed encode
keeps its partial output in the buffer and the next successful one writes it first
(`Trees.EncodeAfterFailure`); hex text of a DateTimeExtended in JSON is read relative to year 1, not
to the epoch (`Json.HexExtendedTime`); integers below -2^31 wrap while those above 2^31-1 are
rejected (`Scalars.WrittenAs`, `Scalars.ChooseFails`).

## Model

| member | source | states |
|---|---|---|
| `BigInteger.UnpadBigInt` | ttlv/ttlv.go:1185-1205 | the index loop removes exactly the bytes that repeat the sign bit of their successor (`Unpad`) |
| `BigInteger.UnpadValue` | ttlv/ttlv.go:1185-1223 | for every byte string unpadding keeps the two's-complement number, so decoding with or without it agrees |
| `BigInteger.UnpadShortest` | ttlv/ttlv.go:1185-1205 | no nonempty byte string spelling the same number is shorter than the unpadded one |
| `BigInteger.SignedWidth` | ttlv/encoder.go:715-718 | BitLen/8+1 bytes hold a number and its negation with a sign bit, and its double reaches the range of one byte fewer |
| `BigInteger.StripExactly` | ttlv/encoder.go:715-726 | the extra byte is stripped if and only if the number is minus a power of two on a byte boundary, such as -128, which alone fits one byte fewer |
| `BigInteger.EncodeRoundTrip` | ttlv/encoder.go:690-736 | every integer decodes from its encoding, unpadded first or not, and the encoding is a positive number of eight-byte words |
| `BigInteger.EncodeShortest` | ttlv/encoder.go:690-736 | among all word-aligned strings that spell the integer the encoding is the unique shortest |
| `BigInteger.MinimalForm` | ttlv/encoder.go:690-736 | a word-aligned string is the encoding of its number if and only if it has fewer than eight pad bytes |
| `Wire.Valid` | ttlv/ttlv.go:240-262 | the loop over enclosed blocks terminates, stays in bounds and reports the recursive validity, first error first |
| `Grammar.HeaderErrors` | ttlv/ttlv.go:279-308 | the header error is the first of: too short, tag outside the two ranges, unknown type, a length no leaf of the type has |
| `Grammar.ValidityErrors` | ttlv/ttlv.go:240-262 | the error of a block is its header's, or missing value bytes, or that of the first enclosed block that is not valid |
| `Grammar.ValidIffGrammar` | ttlv/ttlv.go:240-308 | a byte string is valid if and only if a grammar derivation yields a prefix of it; the derivation is unique and spans FullLen, a multiple of eight |
| `Grammar.ReadBack` | ttlv/ttlv.go:53-133 | tag, type, length, value segment and full length of any derivation read back from its bytes, whatever follows |
| `Grammar.ParseRender` | ttlv/ttlv.go:240-262 | the bytes of any derivation are valid and parse to that derivation, whatever follows |
| `Grammar.RenderParse` | ttlv/ttlv.go:240-262 | a valid block is byte for byte the rendering of its derivation |
| `Grammar.TrailingBytes` | ttlv/ttlv.go:53-133 | bytes after a complete block change neither its header fields, value segment nor the validity verdict, valid or not |
| `Grammar.RenderAllAligned` | ttlv/encoder.go:660-667 | content made of encoded blocks is a whole number of words, so a structure is never padded |
| `Grammar.WalkStructure` | ttlv/ttlv.go:231-233 | ValueStructure then Next visits exactly the children in order, all valid, filling the value segment, with nil only at the end |
| `Grammar.NextBlock` | ttlv/ttlv.go:310-321 | Next after any block is the remaining bytes, nil exactly when there are none |
| `Items.ItemRoundTrip` | ttlv/ttlv.go:137-233 | every written scalar reads back with its type and value at wire precision, whatever bytes follow |
| `Items.MicrosecondsValue` | ttlv/encoder.go:758-769 | seconds times a million plus the microsecond remainder, wrapping at each step, is floor(ns/1000) modulo 2^64, also before the epoch |
| `Items.ExtendedRange` | ttlv/ttlv.go:204-222 | an extended date-time keeps its microsecond if and only if its microsecond count is within 9223372036854775 of the epoch |
| `Items.TruncateExact` | ttlv/encoder.go:771-773 | interval seconds are the floor of a non-negative duration and the ceiling of a negative one |
| `Items.WirePrecision` | ttlv/encoder.go:750-773 | in range, an instant keeps the last whole second or microsecond before it and a duration its whole seconds |
| `Items.ExactItems` | ttlv/encoder.go:738-793 | exactly which items come back with nothing lost |
| `EncodeBuffer.HoleFilled` | ttlv/encoder.go:660-667 | filling the length hole of a finished segment yields the complete header and leaves all earlier bytes alone |
| `EncodeBuffer.EncBuf.Begin` | ttlv/encoder.go:650-658 | appends a header with a zero length and returns where its value starts |
| `EncodeBuffer.EncBuf.End` | ttlv/encoder.go:660-667 | writes the length into the hole, pads to a word, changes nothing else |
| `EncodeBuffer.EncBuf.EndBlock` | ttlv/encoder.go:660-667 | a begun block with any body becomes header, body and padding after the untouched earlier bytes |
| `EncodeBuffer.EncBuf.WriteIntVal` | ttlv/encoder.go:677-683 | appends the four-byte block with its four pad bytes |
| `EncodeBuffer.EncBuf.WriteLongIntVal` | ttlv/encoder.go:669-675 | appends the eight-byte block |
| `EncodeBuffer.EncBuf.EncodeBigInt` | ttlv/encoder.go:690-736 | sign byte, padding and magnitude written in turn append the minimal two's-complement block |
| `EncodeBuffer.EncBuf.EncodeItem` | ttlv/encoder.go:738-793 | each encode method appends exactly the derivation of its item; a nil byte string appends nothing |
| `Hex.ParseHexValue` | internal/kmiputil/hex_values.go:43-66 | the zero-counting loop: leading zero bytes are kept but not counted against the maximum |
| `Hex.ParseExact` | internal/kmiputil/hex_values.go:43-66 | exactly "0x" and pairs of digits parse, and a maximum length bounds the number, not the digits |
| `Hex.DigitsExact` | internal/kmiputil/hex_values.go:43-66 | digits are written in lower case and read in either |
| `Hex.DecodeUintExact` | internal/kmiputil/hex_values.go:13-31 | the decoded number is the number spelled if and only if the bytes fit the width or are all zero |
| `Hex.FormatParse` | internal/kmiputil/hex_values.go:43-66 | a number formatted at full width parses back to its bytes |
| `Names.TypeRoundTrip` | ttlv/formatting.go:22-30 | every type byte survives formatting and parsing |
| `Names.TagRoundTrip` | ttlv/formatting.go:39-47 | every 24-bit tag survives formatting and parsing, registered or not |
| `Names.EnumRoundTrip` | ttlv/formatting.go:75-83 | every uint32 survives formatting and parsing, registered or not |
| `Names.FormatInt` | ttlv/formatting.go:93-139 | the loop clearing bits and appending names builds the joined mask parts, with an early exit when no bits are left |
| `Names.MaskPartsExact` | ttlv/formatting.go:112-138 | the parts are the names, ascending, of the registered values contained in what the smaller chosen ones leave, and then the remainder in hex if there is one |
| `Names.ChosenUnique` | ttlv/formatting.go:112-138 | that choice of values is unique |
| `Names.NothingLeftToName` | ttlv/formatting.go:112-138 | the remainder contains no registered value other than zero |
| `Names.DisjointValues` | ttlv/formatting.go:112-138 | where registered values do not overlap, exactly the contained ones are named |
| `Names.MaskTextExact` | ttlv/formatting.go:93-139 | the text is those parts with bars between them |
| `Names.UnnamedInt` | ttlv/formatting.go:93-101 | without registered values an integer is eight hex digits, or a minus sign before the hex of its magnitude |
| `Names.ParseInt` | ttlv/formatting.go:182-217 | decimal, single name or hex, or the union over separated parts, with the first error |
| `Names.ParseBarred` | ttlv/formatting.go:182-217 | parts with bars between them parse to the union of their values |
| `Names.FirstBadPart` | ttlv/formatting.go:198-216 | the first part that does not parse decides the error |
| `Names.SeparatorsAlike` | ttlv/formatting.go:198-200 | spaces separate as bars do |
| `Names.ParseUintExact` | ttlv/formatting.go:156-169 | decimal text of enumerations is exactly the numerals below 2^32, leading zeros allowed |
| `Names.ParseSignedExact` | ttlv/formatting.go:182-186 | decimal text of integers is exactly the signed numerals in 32 bits |
| `Names.HexBounds` | ttlv/formatting.go:219-255 | hex text is accepted wherever its number fits the type and is an error elsewhere |
| `Names.BadHex` | ttlv/formatting.go:219-236 | text that starts as hex and is no hex value is an error of its own, never a name |
| `Names.MaskPartsValue` | ttlv/formatting.go:112-138 | the parts of a mask are together exactly its bits, though registered values overlap or span several bits |
| `Names.MaskRoundTrip` | ttlv/formatting.go:93-217 | ParseInt inverts FormatInt if and only if: without values, the int is not negative; with values, it is nonzero or zero is registered |
| `Registry.Enum.RegisterValue` | ttlv/registry.go:76-90 | updates the four maps for the value and its two names; the maps stay the outcome of the registration history |
| `Registry.Enum.Name` | ttlv/registry.go:92-100 | the normalized name given by the value's last registration in the object's history, if any |
| `Registry.Enum.CanonicalName` | ttlv/registry.go:102-110 | the name as given in the value's last registration |
| `Registry.Enum.Value` | ttlv/registry.go:112-123 | looks among normalized names first, then canonical ones; a value's name leads back to it if and only if no later registration in the history reused it |
| `Registry.Enum.Values` | ttlv/registry.go:125-134 | the strictly ascending list of exactly the registered values; with distinct usable names the enum meets what the round trips ask for |
| `Registry.NameLeadsBack` | ttlv/registry.go:76-123 | after any registrations a value has its last name, which leads back to it if and only if no later registration reused the normalized name |
| `Registry.ValueExact` | ttlv/registry.go:112-123 | after any registrations a name stands for the value last registered with it as normalized name, or else for the value last registered with it as given |
| `Registry.WrittenName` | ttlv/formatting.go:75-83 | a value is written by the normalized name of its last registration, an unregistered one as eight hex digits |
| `Registry.ReadName` | ttlv/formatting.go:156-169 | text is read as a decimal numeral, else as a registered name unless it is hex, with the error for unknown names |
| `Registry.RegisteredEnumUsable` | ttlv/registry.go:76-134 | enums registered with distinct, usable names satisfy all that the enum, mask and JSON round trips ask for |
| `Scalars.ChosenAsIs` | ttlv/encoder.go:431-617 | an item is written as itself if and only if it is not an Integer or parsable text under a registered enum |
| `Scalars.ChooseFails` | ttlv/encoder.go:375-617 | exactly which scalars get which error, by kind, value, tag, flags and registered enums, and which write nothing |
| `Scalars.WrittenAs` | ttlv/encoder.go:431-617 | the item type and value each kind of Go value is written as |
| `Trees.Encoder.Flush` | ttlv/encoder.go:210-219 | writes the buffer out only when no structure is open |
| `Trees.Encoder.Encode` | ttlv/types.go:140-159 | appends the tree's derivations, whether it succeeds or fails; at depth zero a success leaves the buffer flushed |
| `Trees.Encoder.EncodeStructure` | ttlv/encoder.go:156-164 | one closed structure around the children encoded before any error; depth restored |
| `Trees.Encoder.EncodeChildren` | ttlv/types.go:146-155 | children in order up to the first error |
| `Trees.ChildrenInOrder` | ttlv/types.go:146-155 | children are written in order, and a failing one ends the walk with what was written kept |
| `Trees.StructureClosed` | ttlv/encoder.go:156-164 | a structure is one block under its tag, or the suggested one, around what its children wrote, also when one failed |
| `Trees.ScalarTag` | ttlv/types.go:140-144 | a scalar takes its own tag or the suggested one; without either it is an error except for types that marshal themselves |
| `Trees.EncodeAfterFailure` | ttlv/encoder.go:144-151 | output of a failed encode appears in front of the next successful one |
| `Trees.UnmarshalTTLV` | ttlv/types.go:114-137 | of any bytes: the loop collects the enclosed values in order while blocks are valid, a scalar is read unchecked, and a panic means too few value bytes or an unknown type |
| `Trees.ReadsFront` | ttlv/types.go:118-130 | the values of a structure of any bytes are those of the valid blocks at its front, in order |
| `Trees.TreeRoundTrip` | ttlv/types.go:114-159 | any encodable tree comes back as what survives: tags filled in, nils dropped, chosen types and wire precision, structure and order kept |
| `Trees.TreeComesBack` | ttlv/types.go:114-159 | a tree comes back unchanged if and only if it is faithful, a check on its tags and items alone |
| `Schema.GetTypeInfo` | ttlv/encoder.go:890-930 | succeeds if and only if no struct in the type has two tag-matched fields with one tag |
| `Schema.InfoOkExact` | ttlv/encoder.go:908-927 | type information is refused if and only if some struct has two fields, neither marked `any`, with equal nonzero tags |
| `Schema.MarshalErrors` | ttlv/encoder.go:329-620 | exactly which values are marshaled without error, and which error each of the others gets: that of the first element or field that fails |
| `Schema.FieldsInOrder` | ttlv/encoder.go:526-573 | fields are written in struct order up to the first that fails |
| `Schema.ElemsInOrder` | ttlv/encoder.go:395-420 | elements are written in order up to the first that fails |
| `Schema.StructClosed` | ttlv/encoder.go:521-578 | a struct is one block with its tag around what its fields wrote, also when one failed, and writes nothing if it is refused |
| `Schema.Encode` | ttlv/encoder.go:329-620 | appends the value's derivations to the buffer and touches nothing else, on success and on error |
| `Schema.EncodeElems` | ttlv/encoder.go:395-420 | elements in order up to the first error, omitempty not applied to them |
| `Schema.EncodeStruct` | ttlv/encoder.go:521-578 | one structure block around the fields' blocks, closed also on error |
| `Schema.EncodeFields` | ttlv/encoder.go:526-573 | fields in order up to the first error |
| `Schema.EncodeValue` | ttlv/encoder.go:144-151 | encodes under no flags, flushing only on success and at depth zero |
| `Schema.ValAligned` | ttlv/encoder.go:329-620 | all output is word-aligned, also on error |
| `Unmarshaling.Verdicts` | ttlv/decoder.go:203-445 | for every byte string, valid or not: whether decoding succeeds, fails with which error, or panics does not depend on what the destination holds and is told from its type and the bytes |
| `Unmarshaling.ScalarVerdict` | ttlv/decoder.go:283-391 | how the type switch ends on any scalar bytes: unknown type, mismatch, too few bytes, overflow or success |
| `Unmarshaling.PanicsExactly` | ttlv/decoder.go:203-392 | unmarshal of any scalar bytes panics if and only if, through one pointer and any lists, a ByteString reaches a destination that is neither a byte slice nor a pointer to a non-byte, or a block of another type reaches a destination of that type with too few value bytes |
| `Unmarshaling.StructureStops` | ttlv/decoder.go:394-445 | a value segment of any bytes panics, or fails with an error, if and only if its first valid child that is not accepted does, or all are accepted and its invalid rest, as one last child, does |
| `Unmarshaling.SegmentVerdict` | ttlv/decoder.go:394-445 | the walk over any value segment ends as the check of its valid blocks in turn and then of its invalid rest as one last child |
| `Unmarshaling.InvalidGetsError` | ttlv/decoder.go:15-19 | invalid bytes get the promised error if and only if the check of types, tags and lengths rejects them; otherwise they decode or panic as it says |
| `Unmarshaling.ScalarPlaced` | ttlv/decoder.go:203-391 | accepted scalar bytes, valid or not, put the item they read as behind one pointer and into a new element of each list |
| `Unmarshaling.SetReadItem` | ttlv/decoder.go:283-391 | the type switch stores the item the block reads as, valid or not |
| `Unmarshaling.UnreadableFails` | ttlv/decoder.go:283-391 | a scalar block with too few value bytes panics where its type suits the destination and is a mismatch elsewhere; an unknown type is an error |
| `Grammar.FrontRest` | ttlv/ttlv.go:310-321 | any byte string is a run of valid blocks followed by an invalid rest, empty if and only if all of it is valid blocks |
| `Grammar.FrontUnique` | ttlv/ttlv.go:310-321 | there is only one way to take it apart like that |
| `Unmarshaling.InvalidChildren` | ttlv/decoder.go:394-445 | a value segment that is not valid throughout ends as its check says, and decodes to given fields if and only if its valid front is dispatched and its rest adds one last child or, with extras allowed, has no field |
| `Unmarshaling.InvalidStructure` | ttlv/decoder.go:394-445 | for structures of any bytes, with a wrong header, a truncated segment or none of the declared bytes: success, error or panic as the check says, and the fields a success gives |
| `Unmarshaling.FindField` | ttlv/decoder.go:394-445 | the search loop finds the field with the tag, else the first `any` field, else none |
| `Unmarshaling.RouteUnique` | ttlv/decoder.go:394-445 | the first field with the tag takes the child, else the first `any` field |
| `Unmarshaling.RouteIff` | ttlv/encoder.go:890-930 | without a tag conflict, a nonzero tag leads to a field if and only if it is that field's tag, in whatever order the fields are, or no field has it and the field is the first `any` |
| `Unmarshaling.RouteOwn` | ttlv/encoder.go:908-927 | without a tag conflict, the tag of a field leads to it, also beside `any` fields |
| `Unmarshaling.UnmarshalValue` | ttlv/decoder.go:203-392 | conversion by type through one level of pointer, including errors, panics, and structures into time.Time and big.Int |
| `Unmarshaling.UnmarshalStructure` | ttlv/decoder.go:394-445 | the loop over children, each given to its field in wire order |
| `Unmarshaling.UnmarshalTrailing` | ttlv/decoder.go:203-445 | siblings after a block do not affect what it decodes to |
| `Unmarshaling.Dispatch` | ttlv/decoder.go:394-445 | a structure decodes to given field values if and only if each field decodes on its own from the children routed to it in wire order, and, when extras are disallowed, every child has a field |
| `StructRoundTrip.RoutedFields` | ttlv/decoder.go:394-445 | if each field that writes is where its tag leads, each field receives back exactly the blocks it wrote |
| `StructRoundTrip.DecodedNarrow` | ttlv/decoder.go:245-266 | one block fills one element of each list on the way |
| `StructRoundTrip.EmptyIsZero` | ttlv/encoder.go:301-327 | the values omitempty leaves out are exactly the zero value of the type and empty byte strings |
| `StructRoundTrip.ScalarIff` | ttlv/encoder.go:431-617 | a scalar field comes back if and only if its kind, range, tag and flags allow it |
| `StructRoundTrip.SliceIff` | ttlv/decoder.go:245-266 | a list of any element type, lists included, comes back if and only if every element is written as one block and comes back, appended in order |
| `StructRoundTrip.PtrIff` | ttlv/decoder.go:217-223 | a pointer to a value comes back if and only if the target is no pointer, is written and comes back; for a list that means it is nonempty and each element is one block that comes back |
| `StructRoundTrip.StructDecodes` | ttlv/decoder.go:394-445 | any marshaled struct comes back if and only if each field does from the blocks its and other fields' tags lead to it and, when strict, every block is led somewhere |
| `StructRoundTrip.RoundTrip` | ttlv/decoder.go:203-445 | a marshaled value of any type, decoded into a zero destination of that type, comes back if and only if it is recoverable and, if it writes anything, narrow; strict or not, whatever bytes follow |
| `StructRoundTrip.UnmarshalRoundTrip` | ttlv/decoder.go:194-223 | the same through the pointer that Unmarshal is passed, which is the only one followed: a written value whose type is itself a pointer never comes back |
| `Framing.Decoder.Peek` | ttlv/decoder.go:448-453 | shows eight bytes if the stream has them and consumes none |
| `Framing.Decoder.ReadFull` | ttlv/decoder.go:463-477 | reads exactly the requested bytes however the reader splits them, or all that is left |
| `Framing.Decoder.NextTTLV` | ttlv/decoder.go:448-478 | the result and the bytes left depend only on the bytes of the stream, not on chunking or buffering |
| `Framing.NextExact` | ttlv/decoder.go:448-478 | a message is a prefix of the stream with a good header and the length it declares, and nothing else is; end of stream, bad header and cut-off message by their exact conditions |
| `Framing.RemainingExact` | ttlv/decoder.go:448-478 | a message is taken out of the stream, a cut-off one empties it, a bad header stays |
| `Framing.StreamExact` | ttlv/decoder.go:448-478 | the messages delivered and what ends them are the only way to cut the stream into complete messages followed by something that is not one |
| `Framing.Decoder.ReadMessages` | requests.go:307-316 | the request loop delivers the successive messages and stops at the first failure |
| `Framing.FramesMessages` | ttlv/decoder.go:448-478 | a stream of valid messages is cut into exactly those messages in order, and what follows them is left |
| `Server.NextInvariant` | requests.go:71-235 | every atomic step of every call keeps the invariant tying mutex, flag, listeners, once and positions |
| `Server.ServesWhileOpen` | requests.go:71-109 | in every run, while no Close or Shutdown has stored the flag, a Serve that has registered and not stopped has its listener tracked and open, and none is turned away or returns ErrServerClosed |
| `Server.StopsOnlyOnFailure` | requests.go:85-109 | while the server is open a Serve stops only after an Accept that failed on an open listener and not by a timeout, and returns that error |
| `Server.NeverAcceptsAgain` | requests.go:85-109 | after such a failure a Serve never accepts again |
| `Server.AcceptOutcomes` | requests.go:85-113 | Accept may take a connection, a timeout leads back to Accept, any other failure to the end of the call |
| `Server.ShutdownSafety` | requests.go:127-235 | in every run, once a Close or Shutdown has released the mutex, no listener is ever tracked again and none is accepted on open |
| `Server.ClosedOnce` | requests.go:545-556 | in every run each underlying Close runs at most once, and exactly once when its Serve has returned |
| `Server.ClosedServeReturns` | requests.go:88-109 | a Serve whose listener is closed under it can only return ErrServerClosed |
| `Server.LateServeReturns` | requests.go:216-231 | a Serve started after the flag is set is never tracked and can only return ErrServerClosed |
| `Server.NoDeadlock` | requests.go:71-235 | in every reachable state with a busy call some busy call can step, although a close may wait on another's once under the mutex |
| `Server.BoundedShutdown` | requests.go:71-235 | once a Close or Shutdown has released the mutex, every run takes at most as many more steps as the rank of that state |
| `Server.ShutdownCompletes` | requests.go:71-235 | where such a run can go no further, every Serve has returned with its listener closed exactly once and every Close and Shutdown is done |
| `Json.MarshalJSON` | ttlv/ttlv.go:888-1023 | the child loop with its moving attribute tag produces the JSON tree, or an error |
| `Json.StructureWritten` | ttlv/ttlv.go:962-1003 | one object for each child in order; an Integer or Enumeration AttributeValue is named by the enum of the tag that the last AttributeName before it names, defined by index, any other child as on its own |
| `Json.LeafWritten` | ttlv/ttlv.go:888-960 | a leaf is its tag and type by name or hex and its value, named by the enum of its own tag |
| `Json.ItemWritten` | ttlv/ttlv.go:904-1020 | the value of each item type: numbers within 52 bits as numbers and others as the hex of their bytes, enumerations and masks by name, intervals in seconds |
| `Json.UnmarshalJSON` | ttlv/ttlv.go:626-886 | writes the bytes of the blocks the object stands for, with errors and panics |
| `Json.NumbersRead` | ttlv/ttlv.go:722-851 | numbers in range are taken as they are for every type that has them |
| `Json.HexRead` | ttlv/ttlv.go:722-851 | hex text up to the width of the type is its unsigned or two's-complement value; never a ByteString |
| `Json.BooleansRead` | ttlv/ttlv.go:681-698 | of all texts only the hex of one and of zero in eight bytes are Booleans |
| `Json.TextsRead` | ttlv/ttlv.go:699-772 | times may be RFC 3339 text, texts are taken as they are, names stand for enumerations |
| `Json.OthersRefused` | ttlv/ttlv.go:681-851 | null, arrays and objects are no scalars, and booleans only Booleans |
| `Json.ObjectsRead` | ttlv/ttlv.go:643-665 | a structure may say its type and have null for no children, an unknown type stands for nothing, a bad tag is an error |
| `Json.UnmarshalStructure` | ttlv/ttlv.go:853-883 | the child loop derives the attribute tag from the bytes just written and encloses the children in one structure |
| `Json.Reblock` | ttlv/ttlv.go:626-886 | writing a leaf's item gives the same bytes if and only if the leaf is in the encoder's own form |
| `Json.LeafIff` | ttlv/ttlv.go:626-1023 | a leaf survives JSON if and only if it is in that form and its item is expressible |
| `Json.FirstIff` | ttlv/ttlv.go:962-1003 | a child read under the attribute tag carried so far comes back if and only if it is canonical under it |
| `Grammar.RenderInjective` | ttlv/ttlv.go:53-133 | two trees over the same tags with properly padded leaves of any length and equal bytes are equal |
| `Json.TreeCopies` | ttlv/ttlv.go:626-1023 | whatever comes back from JSON is a single tree over the same tags |
| `Json.JsonRoundTrip` | ttlv/ttlv.go:626-1023 | valid TTLV comes back from JSON with the same bytes if and only if it is canonical |
| `Json.HexExtendedTime` | ttlv/ttlv.go:740-772 | a hex extended date-time is written back off by the microseconds from year 1 to 1970 |
| `Counterexamples.LongHexText` | internal/kmiputil/hex_values.go:13-66 | "0x0000000001" is accepted for 32 bits and read as 0 |
| `Counterexamples.NegativeMask` | ttlv/formatting.go:93-101 | -1 without an enum does not parse back |
| `Counterexamples.ZeroMask` | ttlv/formatting.go:112-138 | 0 under a mask that does not name it formats as empty text, which fails to parse |
| `Counterexamples.EmptyByteString` | ttlv/encoder.go:785-788 | an empty byte string is written and reads back as nil, which would not be written |
| `Counterexamples.SmallInt` | ttlv/encoder.go:586-592 | the int -2^31-1 is written as the Integer 2^31-1 |
| `Counterexamples.ExtendedPastRange` | ttlv/encoder.go:758-769 | microsecond 9223372036854776 reads back as a time before 1970 |
| `Counterexamples.ReusedName` | ttlv/registry.go:76-123 | the name of a value registered first leads to the value registered under it later |
| `Counterexamples.TreeWithText` | ttlv/types.go:114-159 | a tree with text that names a value of its tag's enum comes back with an Enumeration |
| `Counterexamples.StructWithSmallInt` | ttlv/encoder.go:586-592 | a struct with the int -2^31-1 is marshaled without error and comes back different |
| `Counterexamples.SecondAnyField` | ttlv/decoder.go:412-430 | a struct with two `any` fields is marshaled without error and decodes with the second field zero, its block going to the first |
| `Counterexamples.ByteStringIntoBool` | ttlv/decoder.go:203-392 | unmarshaling a ByteString into a bool, or a pointer to one, panics |
| `Counterexamples.InvalidMessage` | ttlv/decoder.go:394-445 | a structure around eight zero bytes is invalid, but NextTTLV delivers it and it decodes |
| `Counterexamples.PanickingMessage` | ttlv/decoder.go:346-352 | a structure around an Integer of two bytes is invalid, but NextTTLV delivers it, and decoding it into a struct with an int field panics |
| `Counterexamples.TextUnderEnum` | ttlv/encoder.go:460-490 | a struct with a string that names a value of its tag's enum is marshaled without error, and decoding it is a type mismatch |
| `Counterexamples.BooleanTwo` | ttlv/ttlv.go:626-1023 | a Boolean segment holding 2 does not survive JSON |
| `Counterexamples.WideZero` | ttlv/ttlv.go:626-1023 | a zero BigInteger of two words does not survive JSON |

## Left out

- StructRoundTrip.RoundTrip: what is written has tags in the ranges 0x42xxxx and 0x54xxxx and lengths that fit in 32 bits, as `Valid` demands, and each field that writes blocks is where its tag leads. A second `any` field, or an `any` field whose tag another field has, is not; its blocks go to the other field, and `StructRoundTrip.StructDecodes` says when such a struct comes back all the same.
- Trees.TreeRoundTrip: tags are in the ranges 0x42xxxx and 0x54xxxx and lengths fit in 32 bits, as `Valid` demands.
- Json.JsonRoundTrip: name normalization, UTF-8 repair and RFC 3339 times are parameters, and registered names are assumed unambiguous (`EnvOk`, which `SmallEnvOk` shows can be met); what the round trip loses is part of `Canonical`. The source writes names into the JSON text unescaped, so names with a quote or backslash would not give JSON; trees do not show that.
- Unmarshaling.UnmarshalValue: destinations are values, so the fields already assigned when an error ends decoding are not modelled, nor is aliasing through pointers.
- Server.NoDeadlock: the delay after a timed-out Accept, error values of Close and the connection goroutines are not modelled.
- Framing.Decoder.ReadFull: readers that return no bytes without ending the stream, or an error together with bytes, are not modelled.
- Wire accessors on a value segment shorter than their type needs panic in the source; here they require the bytes, and `Unmarshaling.SetScalar` and `Trees.UnmarshalTTLV` model the panic where it can be reached.
- The XML mapping, which loses unregistered structure tags, and the human-readable printers.
- Text-level JSON: numbers are integers, out-of-range ones wrap (Go leaves that conversion open), and objects have the members tag, type and value.
- Go reflection, Marshaler and Unmarshaler hooks, tag inference from field and type names, TTLVTag fields, fields of raw TTLV or interface type.
- A structure decoded into an interface, which keeps its trailing siblings, and Decoder.Reset, which clears DisallowExtraValues.
- Nil and empty slices are told apart only for byte strings.
- Error messages and the struct and field context they carry.
- Write errors of the underlying writer.
- OperationMux, handleRequest and the operation handlers: batch counting is easy on the normal path and unsynchronized on the error path.
- Registry maps from tags to enums, which are plain lookups; generated constants and command-line tools.
