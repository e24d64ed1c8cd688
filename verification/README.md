# BCS codecs and Task completion of the Violas client SDK

A Dafny model of the code that signs and parses Diem/Violas transactions, with proofs that
its two BCS codecs mean what they promise, of the on-chain resource lookup that uses both,
and of the completion protocol of its coroutine `Task`.

## What is modelled

**The canonical codec** (`serde.hpp`, `bcs.hpp`, `binary.hpp`, `diem_types.hpp`).
`Values.dfy` has the values and types that serializers are derived for: integers of five
widths, booleans, strings, options, pairs (tuples and struct fields are chains of pairs),
vectors, arrays, maps, variants, and one `Struct` node for every object whose serializer
brackets its fields with `increase_container_depth` and `decrease_container_depth`. A
`Grammar` names the bodies of recursive types. Three definitions are kept apart:

- `Enc`, the reference encoding, which orders a map by its encoded keys;
- `Ser`, what the serializer does: iterate the map in some order, write key and value
  slices, sort whole slices, and stop at the first failing length or depth check;
- `Dec`, what the deserializer does, with every error, comparing only key slices.

The main theorems connect them: `SerExactly`, `Complete`, `Sound`, and above them the
bijections of `Messages.dfy`, `TypeTags.dfy` and `Transactions.dfy`. Maps work because
encodings are prefix-free (`PrefixFree.Unique`). The classes `BcsSerializer` and
`BcsDeserializer` keep the fields, loops and in-place sort of the source and are proved
against `Ser` and `Dec`; `Dec` is total, so every run ends in a value or an error.

**The one-method-both-ways codec** (`bcs_serde.hpp`): `Serde.dfy` has its specification and
theorems, `BcsSerde.dfy` the object with its mode flag and iterator.

**Resource lookup** (`account_state_2.hpp`, `violas_client2.hpp`, `utils.hpp`): hex text,
then bytes, then a map read by one codec, with keys written by the other.

**Tasks** (`co_helper.hpp`): a chain of n tasks in which every operation that threads could
interleave is a step of its own.

| files | content |
|---|---|
| Bytes, Order | bytes, lexicographic order, little-endian integers, sorting, enumerations |
| Leb128, Utf8 | ULEB128 in both decoders, the UTF-8 check |
| Values, Serializing, Decoding | values, types and the three definitions |
| PrefixFree, Canonical, Rejecting, Messages | the theorems about them |
| Serializer, Deserializer | the stateful classes |
| DiemTypes, TypeTags, Formats | type tags, and tools for formats of records |
| Arguments, Scripts, WriteSets, Authenticators, Transactions | the Diem records, their wire format and their limits |
| Serde, SerdeOrders, Rewriting, BcsSerde | the second codec |
| Hex, Resources | hex text and resource lookup |
| Tasks | the coroutine protocol |

## Decisions

- `Deserializable<std::tuple>` reads its components as arguments of one call
  (`cpp/framework/src/serde.hpp:607-616`), whose order C++ leaves unspecified. The model reads
  them from left to right, as clang++, the compiler set in `cpp/CMakeLists.txt`, does. Among
  the Diem types only the tuples in write sets depend on it.
- `BcsSerde` copies integers byte by byte from memory; the model has a little-endian host.
- Exceptions are values: `Outcome` for a call, `Parsed` for a specification of reading.
- The order in which `std::map` iterates is a parameter `ord`, constrained only to list each
  key once; theorems hold for every such order. `std::sort` is a function with its contract.
- Shifts, masks and `or` on disjoint bits are written as products, remainders and sums.
- `index > cases.size()` in the enum decoder is kept: an index equal to the number of cases
  gives `VariantOutOfRange` (from `at`) and a larger one `UnknownVariant`.
- A read past the end of a `BcsSerde` buffer, and of hex text of odd length, is undefined in
  C++; here it is the error `PastEnd`, so theorems that rule it out are meaningful.
- `BcsSerde` reads into a default-constructed object, so a variant reads into its first
  alternative, as the operator visits the alternative that the object holds.
- What a `stringstream` makes of two characters is a parameter, constrained on hex digits.
- The blob that the client fetches is a parameter of `GetAccountState`.
- Resuming an awaiter makes it runnable; it then proceeds by its own steps. This includes
  the schedules of the synchronous call and more. Steps are sequentially consistent and
  every task has one awaiter.
- These promises do not hold of the code; each has its counterexample and its exact condition:
  - `BcsSerde` restores what it wrote: `VariantNotRestored`, `LongStringNotRestored`;
    `RoundTripExactly`.
  - `BcsSerde` rewrites what it read: `LooseFlagRead`; `RewritesExactly`.
  - The two encoders agree on maps: `NumericOrderDiffers`; `MapsAgreeExactly`, `EncodersAgree`.
  - A string that was written can be read: `InvalidIsWritten`; `WrittenIsRead`.
  - The UTF-8 check accepts only strings of RFC 3629: `OverlongAccepted`; `RfcExactly`.
  - An awaiter is resumed: `WakeUpCanBeLost`; `LostExactlyWhenLate` and
    `LateExactlyWhenSlipped`, with `BackToBackCompletes` for an executor that loses none.
  - Registration writes to a living frame: `WakeUpCanBeLost`; `DanglingExactly`.
  - The guard of `hex_to_array_u8` protects the loop behind it: it compares characters with
    bytes, so text between N and 2N - 1 characters passes it and fails later; `HexToArray`.

## Model

| member | source | states |
|---|---|---|
| `Canonical.Complete` | cpp/framework/src/serde.hpp:525-649 | The decoder inverts the encoding on every type, map types and recursive types included: the encoding of any value within the length, depth and UTF-8 limits, followed by any bytes, decodes to that value and stops at its end |
| `Canonical.Sound` | cpp/framework/src/serde.hpp:525-649 | The converse: whatever decodes successfully has the type, is within the limits, and the consumed bytes are exactly the encoding of the result |
| `Rejecting.WrittenIsReadExactly` | cpp/framework/src/binary.hpp:248-260 | For every value that can be written, under any budget and with any bytes behind it: decoding gives the value, or the UTF-8 error if some string inside, however deep, is not valid |
| `PrefixFree.Unique` | cpp/framework/src/serde.hpp:274-377 | Encodings of one type are prefix-free: two encodings with arbitrary followers agree only if values and followers do, with no bound on lengths, depth or string contents |
| `PrefixFree.NeitherBegins` | cpp/framework/src/serde.hpp:280-323 | Of two different values of one type, neither encoding begins the other |
| `PrefixFree.SortedEntries` | cpp/framework/src/bcs.hpp:70-93 | Sorting whole key-plus-value slices, listed in any iteration order, puts the entries in the order of their encoded keys |
| `PrefixFree.CanonicalKeysIncrease` | cpp/framework/src/bcs.hpp:129-139 | In that order the key slices strictly increase, which is what the decoder checks |
| `Canonical.SortedListIsMap` | cpp/framework/src/serde.hpp:580-588 | Entries whose key slices increase never collide on insertion, and the map they make is encoded by those entries in that order |
| `Canonical.SoundMap` | cpp/framework/src/serde.hpp:564-592 | An accepted map has exactly as many entries as its length prefix says, and its canonical encoding is the consumed bytes |
| `Messages.MapRoundTrip` | cpp/framework/src/serde.hpp:325-344 | A map within the limits is written whatever order it is iterated in, and the decoder, under the same budget, accepts the output, returns the same map and stops at its end |
| `Messages.MapCanonical` | cpp/framework/src/serde.hpp:568-591 | Serializing a decoded map again, in any iteration order, gives back exactly the bytes it was read from |
| `Serializing.SerExactly` | cpp/framework/src/serde.hpp:274-377 | Serialization succeeds if and only if lengths and struct depth are within the limits, and then emits the reference encoding |
| `Serializing.SerOrderFree` | cpp/framework/src/serde.hpp:331-339 | The emitted bytes do not depend on the order in which the map is iterated |
| `Messages.WriteThenRead` | cpp/framework/src/diem_types.hpp:2828-2832 | Every value within the limits is written, and reads back as itself |
| `Messages.WrittenIsRead` | cpp/framework/src/diem_types.hpp:2828-2841 | Whatever was written is read back as itself if and only if all its strings are valid, and otherwise is rejected as invalid UTF-8 and for no other reason |
| `Messages.InvalidIsWritten` | cpp/framework/src/binary.hpp:93-99 | The string of one byte FF is written and then rejected |
| `Messages.ReadThenWrite` | cpp/framework/src/diem_types.hpp:2834-2841 | Every accepted input is the serialization of the value it gave, which is within the limits |
| `Messages.MessageBijection` | cpp/framework/src/diem_types.hpp:2828-2841 | For every type: an input reads as v if and only if v is a value of the type within the limits and is written as that input |
| `Messages.NoTrailingBytes` | cpp/framework/src/diem_types.hpp:2837-2839 | A message followed by at least one byte is rejected for its trailing bytes |
| `Messages.EncodingInjective` | cpp/framework/src/diem_types.hpp:2828-2832 | Two values of a type written as the same bytes, under any two iteration orders, are equal |
| `Serializer.SortTailKeeps` | cpp/framework/src/bcs.hpp:70-93 | `sort_last_entries` keeps the buffer length and every byte before the first offset, and behind it leaves a sorted permutation of the slices |
| `Serializer.OuterOffsetsSurvive` | cpp/framework/src/serde.hpp:331-342 | Offsets held by an enclosing map stay valid when an inner map is sorted, and the slices it has finished are unchanged |
| `Serializer.BcsSerializer.SortLastEntries` | cpp/framework/src/bcs.hpp:70-93 | The in-place method, which cuts, sorts, truncates and appends, ends with the sorted buffer that `SortTailKeeps` describes |
| `Serializer.BcsSerializer.Serialize` | cpp/framework/src/serde.hpp:274-377 | The stateful serializer appends exactly what the specification gives, throws when it does, and on success restores the depth budget |
| `Serializer.BcsSerializer.SerializeItems` | cpp/framework/src/serde.hpp:300-323 | The element loop appends the elements in order and stops at the first failure |
| `Serializer.BcsSerializer.SerializeEntries` | cpp/framework/src/serde.hpp:325-344 | The map loop records an offset per entry and leaves the entries sorted behind what was already written, nested maps included |
| `Serializer.BcsSerializer.SerializeU32AsUleb128` | cpp/framework/src/bcs.hpp:51-57 | The shift loop appends the minimal ULEB128 encoding |
| `Serializer.BcsSerializer.SerializeLen` | cpp/framework/src/bcs.hpp:59-64 | Appends the length, or throws above 2^31 - 1 |
| `Serializer.BcsSerializer.SerializeStr` | cpp/framework/src/binary.hpp:93-99 | Appends length and bytes, without any check of the contents |
| `Serializer.BcsSerializer.SerializeU16` | cpp/framework/src/binary.hpp:129-133 | Byte-by-byte shifts append the little-endian form |
| `Serializer.BcsSerializer.SerializeU32` | cpp/framework/src/binary.hpp:135-141 | Byte-by-byte shifts append the little-endian form |
| `Serializer.BcsSerializer.SerializeU64` | cpp/framework/src/binary.hpp:143-153 | Byte-by-byte shifts append the little-endian form |
| `Serializer.BcsSerializer.SerializeU128` | cpp/framework/src/binary.hpp:155-159 | Low half then high half append the sixteen little-endian bytes of high * 2^64 + low |
| `Serializer.LE128` | cpp/framework/src/binary.hpp:155-159 | The sixteen bytes of a 128-bit number are the eight bytes of its low half and of its high half |
| `Serializer.BcsSerializer.IncreaseContainerDepth` | cpp/framework/src/binary.hpp:197-203 | Takes one unit of the budget, or throws at zero and leaves it |
| `Deserializer.BcsDeserializer.Deserialize` | cpp/framework/src/serde.hpp:525-649 | On every input the stateful deserializer ends in the value or the error of the specification, never moves backwards or past the end, and on success restores the budget |
| `Deserializer.BcsDeserializer.DeserializeItems` | cpp/framework/src/serde.hpp:550-562 | The `push_back` loop reads exactly the announced number of elements or the first error |
| `Deserializer.BcsDeserializer.DeserializeEntries` | cpp/framework/src/serde.hpp:564-592 | The `insert` loop, which remembers the previous key slice, returns the map of the entries read, or an error when a key slice does not increase |
| `Deserializer.BcsDeserializer.DeserializeEnum` | cpp/framework/src/serde.hpp:618-649 | An index above the number of cases is an unknown variant; an index equal to it passes that test and fails in the lookup with another exception |
| `Canonical.NoSuchCase` | cpp/framework/src/serde.hpp:643-647 | An encoded variant index equal to the number of cases is out of range, a larger one below 2^32 is an unknown variant |
| `Deserializer.BcsDeserializer.DeserializeStruct` | cpp/framework/src/diem_types.hpp:2903-2914 | Fields are read inside one unit of the depth budget, which is restored on success |
| `Deserializer.BcsDeserializer.CheckKeys` | cpp/framework/src/bcs.hpp:129-139 | Throws unless the first key range is lexicographically smaller than the second |
| `Deserializer.BcsDeserializer.LexicographicalCompare` | cpp/framework/src/bcs.hpp:131-134 | The comparison loop over two ranges of the input computes the order in which slices are sorted |
| `Deserializer.BcsDeserializer.DeserializeUleb128AsU32` | cpp/framework/src/bcs.hpp:95-115 | The loop over shifts computes the decoder whose exactness `Leb128.U32RoundTrip` and `Leb128.U32Canonical` state |
| `Deserializer.BcsDeserializer.DeserializeLen` | cpp/framework/src/bcs.hpp:117-123 | Reads a length, or throws above 2^31 - 1 |
| `Deserializer.BcsDeserializer.DeserializeStr` | cpp/framework/src/binary.hpp:248-260 | Reads length and bytes, and throws on the end of the input or on contents that fail the UTF-8 check |
| `Deserializer.BcsDeserializer.DeserializeBool` | cpp/framework/src/binary.hpp:282-292 | 0 and 1 are booleans, any other byte is an error |
| `Deserializer.BcsDeserializer.DeserializeU64` | cpp/framework/src/binary.hpp:317-329 | The shifted bytes sum to the integer that the next eight bytes encode |
| `Deserializer.BcsDeserializer.DeserializeU128` | cpp/framework/src/binary.hpp:331-337 | The two halves read make up the integer that the next sixteen bytes encode |
| `Deserializer.BcsDeserializer.ReadByte` | cpp/framework/src/binary.hpp:210-216 | Reads the next byte and advances, or throws at the end |
| `Deserializer.BcsDeserializer.IncreaseContainerDepth` | cpp/framework/src/binary.hpp:377-383 | Takes one unit of the budget, or throws at zero and leaves it |
| `Deserializer.BcsDeserialize` | cpp/framework/src/diem_types.hpp:2834-2841 | `bcsDeserialize` for any type: one value, and an error when input is left over |
| `Messages.BcsSerialize` | cpp/framework/src/diem_types.hpp:2828-2832 | `bcsSerialize` for any type: what a fresh serializer writes, or its error |
| `Leb128.U32RoundTrip` | cpp/framework/src/bcs.hpp:51-57 | For every u32 the decoder inverts the encoder and stops at its last byte |
| `Leb128.U32Canonical` | cpp/framework/src/bcs.hpp:95-115 | The decoder succeeds only on the minimal encoding of a number below 2^32 |
| `Leb128.U32Exactly` | cpp/framework/src/bcs.hpp:95-115 | The encoding of every number, with any bytes behind it: below 2^32 it is decoded, from 2^32 on it overflows |
| `Leb128.LenExactly` | cpp/framework/src/bcs.hpp:117-123 | The same for lengths: up to 2147483647 decoded, above it too large, from 2^32 on an overflow |
| `Serializing.SerLen` | cpp/framework/src/bcs.hpp:59-64 | Lengths up to 2147483647 are written, longer ones throw |
| `Leb128.LenRoundTrip` | cpp/framework/src/bcs.hpp:117-123 | Lengths up to 2^31 - 1 come back from their encoding |
| `Leb128.UlebUnique` | cpp/framework/src/bcs.hpp:51-57 | Encodings of any two numbers, with any followers, agree only if the numbers do |
| `Leb128.ShortExactly` | cpp/sdk/include/bcs_serde.hpp:51-75 | Below 2^28 `decode_integer` inverts the encoding; from 2^28 on it returns the number modulo 2^28 and stops short of the end |
| `Utf8.CheckUtf8` | cpp/framework/src/binary.hpp:218-246 | The loop over `trailing_digits` computes the predicate that the next rows describe |
| `Utf8.AcceptsExactlyBlocks` | cpp/framework/src/binary.hpp:218-246 | Accepted strings are exactly the concatenations of blocks, spelled out: 00-7F alone, C0-DF with one, E0-EF with two, F0-F7 with three bytes 80-BF |
| `Utf8.ValidConcat` | cpp/framework/src/binary.hpp:218-246 | After a valid string, a string is accepted if and only if it is accepted alone |
| `Utf8.RfcAccepted` | cpp/framework/src/binary.hpp:218-246 | Every string of the grammar in section 4 of RFC 3629 is accepted |
| `Utf8.OverlongAccepted` | cpp/framework/src/binary.hpp:222-228 | The converse fails: C0 80 is accepted and is not a string of that grammar |
| `Utf8.RfcExactly` | cpp/framework/src/binary.hpp:218-246 | The exact condition: a string is in that grammar if and only if it is accepted and shows, at no position, an overlong lead (C0, C1, E0 before a byte below A0, F0 below 90), a surrogate (ED above 9F) or a code point above U+10FFFF (F4 above 8F, F5 and up) |
| `TypeTags.TagSerializesExactly` | cpp/framework/src/diem_types.hpp:3850-3855 | With names and lists in range, serializing a tag under budget b succeeds if and only if its structural depth (leaf 1, vector 1 + d, struct 2 + max(1, parameters)) is at most b, and writes the wire format |
| `TypeTags.TagDecodesExactly` | cpp/framework/src/diem_types.hpp:3858-3866 | Decoding under budget b gives tag t after n bytes if and only if those bytes are its wire format, its depth is at most b and its names are in range and valid |
| `TypeTags.DecodedIsTag` | cpp/framework/src/diem_types.hpp:3858-3866 | Every successful decode is of some tag and consumed exactly its wire format |
| `TypeTags.StructDecodesExactly` | cpp/framework/src/diem_types.hpp:2903-2914 | The same equivalence for struct tags |
| `TypeTags.DecodedIsStruct` | cpp/framework/src/diem_types.hpp:2903-2914 | Every successful decode of a struct tag is of some struct tag and consumed exactly its wire format |
| `TypeTags.StructSerializesExactly` | cpp/framework/src/diem_types.hpp:2892-2900 | With names and lists in range, serializing a struct tag under budget b succeeds if and only if its depth is at most b |
| `TypeTags.TagBytesPrefixFree` | cpp/framework/src/diem_types.hpp:4102-4152 | Different tags have wire formats of which neither begins the other |
| `TypeTags.TagFits` | cpp/framework/src/diem_types.hpp:3850-3866 | Every limit met along a tag of any nesting, as depth and name conditions, both ways |
| `TypeTags.StructFits` | cpp/framework/src/diem_types.hpp:2892-2914 | The same for struct tags |
| `TypeTags.TagEncodes` | cpp/framework/src/diem_types.hpp:4102-4152 | The derived encoding of a tag is its spelled-out wire format |
| `TypeTags.AddressEncodes` | cpp/framework/src/diem_types.hpp:846-851 | An address is encoded as its sixteen bytes, without a length |
| `TypeTags.StructEncodes` | cpp/framework/src/diem_types.hpp:2892-2900 | The derived encoding of a struct tag is address, module, name and parameters |
| `Transactions.SignedTransactionBijection` | cpp/framework/src/diem_types.hpp:2828-2863 | An input is accepted if and only if it is the wire format of an encodable signed transaction, which is unique, is what is read, and is written as that input |
| `Transactions.LimitsExactly` | cpp/framework/src/diem_types.hpp:2845-2863 | All run-time checks on a signed transaction as conditions on its record: lists in range, type arguments of scripts and script functions at most 496 deep (495 inside a write set, 493 for its events), strings valid when read; both ways |
| `Transactions.SignedTransactionSerializes` | cpp/framework/src/diem_types.hpp:2828-2832 | A transaction serializes, to its wire format, if and only if its record is within those limits |
| `Transactions.SignedTransactionMessage` | cpp/framework/src/diem_types.hpp:2828-2841 | An encodable transaction is written in the wire format, and an input reads as it if and only if it is that format |
| `Transactions.DecodedIsTransaction` | cpp/framework/src/diem_types.hpp:2854-2863 | Every accepted input is the wire format of some encodable transaction record |
| `Transactions.SignedBytesPrefixFree` | cpp/framework/src/diem_types.hpp:2845-2852 | Transactions, within the limits or not, whose wire formats agree up to followers are equal |
| `Transactions.RawBytesPrefixFree` | cpp/framework/src/diem_types.hpp:2347-2360 | The same for raw transactions: the bytes that are signed determine the record |
| `Transactions.FormSigned` | cpp/framework/src/diem_types.hpp:2845-2852 | A signed transaction is encoded as raw transaction, then authenticator |
| `Transactions.FormRaw` | cpp/framework/src/diem_types.hpp:2347-2360 | The field order and field encodings of a raw transaction |
| `Scripts.FormScript` | cpp/framework/src/diem_types.hpp:2747-2755 | The encoding of a script: code, type arguments, arguments |
| `Scripts.FormCall` | cpp/framework/src/diem_types.hpp:2796-2805 | The encoding of a script function: module, function, type arguments, arguments |
| `Transactions.FormPayload` | cpp/framework/src/diem_types.hpp:3534-3540 | One byte for the kind of payload, then the write set, script, module or script function, each spelled out |
| `WriteSets.FormWriteSet` | cpp/framework/src/diem_types.hpp:4421-4505 | A write-set payload is a change set, or an address and a script, behind one byte for its kind |
| `WriteSets.FormChangeSet` | cpp/framework/src/diem_types.hpp:1109-1114 | The list of writes, then the list of events |
| `WriteSets.FormWriteEntry` | cpp/framework/src/diem_types.hpp:4222-4301 | Address and path, then one byte for the operation and the bytes it assigns |
| `WriteSets.FormEvent` | cpp/framework/src/diem_types.hpp:1317-1365 | One byte for the version, then key, sequence number, type tag and data |
| `WriteSets.WriteSetFitsExactly` | cpp/framework/src/diem_types.hpp:4379-4465 | Under budget b a write set passes every run-time check if and only if its lists are in range, the types of its events are at most b - 4 deep and the type arguments of its script at most b - 2 |
| `Scripts.ScriptFitsExactly` | cpp/framework/src/diem_types.hpp:2747-2755 | A script passes every run-time check under budget b if and only if its lists are in range and its type arguments are at most b - 1 deep with names in range |
| `Scripts.CallFitsExactly` | cpp/framework/src/diem_types.hpp:2796-2805 | The same for a script function and its identifiers |
| `Authenticators.AuthenticatorFitsExactly` | cpp/framework/src/diem_types.hpp:3366-3498 | An authenticator passes every run-time check if and only if its keys, signatures and lists are in range |
| `Authenticators.FormAuthenticator` | cpp/framework/src/diem_types.hpp:3366-3372 | One byte for the scheme, then keys and signatures, or the sender, the other addresses and their authenticators |
| `Arguments.FormArgument` | cpp/framework/src/diem_types.hpp:3096-3103 | One byte for the kind of argument, then the argument |
| `Arguments.MakeTxnArgs` | cpp/sdk/include/violas_client2.hpp:398-448 | The fold pushes one transaction argument per argument, in order and of the matching kind |
| `Arguments.ArgumentU128Bytes` | cpp/sdk/include/violas_client2.hpp:414-417 | For every n below 2^128 the high/low split is serialized as the sixteen little-endian bytes of n, from which n is recovered |
| `Serde.RoundTripExactly` | cpp/sdk/include/bcs_serde.hpp:51-395 | A value comes back from what `BcsSerde` wrote, with the cursor at the end of its encoding, if and only if all its lengths are below 2^28 and all its variants hold their first alternative |
| `Serde.RoundTrip` | cpp/sdk/include/bcs_serde.hpp:165-371 | The half that makes it work: a short value is restored whatever follows |
| `Serde.ReadIsShort` | cpp/sdk/include/bcs_serde.hpp:51-75 | Whatever the input, only short values are ever read |
| `Rewriting.RewritesExactly` | cpp/sdk/include/bcs_serde.hpp:51-395 | What `BcsSerde` has read is rewritten unchanged if and only if the input was tidy: lengths with minimal digits, flags 0 or 1, variant indices 0, and map keys in the order of the map without repeats, at every depth |
| `Rewriting.CanonicalExactly` | cpp/sdk/include/bcs_serde.hpp:51-395 | What it has read is a canonical encoding if and only if the input was tidy for the order of the encoded keys |
| `Rewriting.LooseFlagRead` | cpp/sdk/include/bcs_serde.hpp:151-160 | A flag byte 2 is read as true, which is written as 1 |
| `Rewriting.LengthRewritten` | cpp/sdk/include/bcs_serde.hpp:51-75 | A length is rewritten unchanged if and only if its last digit has no continuation bit and, unless it is the only one, is not zero |
| `Rewriting.Aligned` | cpp/sdk/include/bcs_serde.hpp:116-395 | If an input begins with what is written for the value read from it, exactly that much was read |
| `Serde.VariantNotRestored` | cpp/sdk/include/bcs_serde.hpp:373-395 | A variant holding its second alternative is read into its first |
| `Serde.LongStringNotRestored` | cpp/sdk/include/bcs_serde.hpp:165-183 | A string of 2^28 bytes is read as the empty string, four bytes into its encoding |
| `SerdeOrders.EncodersAgree` | cpp/sdk/include/bcs_serde.hpp:128-352 | Whenever `BcsSerializer` writes a value, under any depth budget, `BcsSerde` emits the same bytes if and only if it iterates every map inside in the order of the encoded keys; on map-free values it always does |
| `SerdeOrders.MapsAgreeExactly` | cpp/sdk/include/bcs_serde.hpp:262-276 | For every typed value, maps nested anywhere: the two encodings are equal if and only if `std::map` iterates in the order of the encoded keys at every map inside |
| `SerdeOrders.WritesAgreeExactly` | cpp/sdk/include/bcs_serde.hpp:262-276 | Two iteration orders give the same bytes if and only if they list every map inside the value alike |
| `SerdeOrders.UniqueAcross` | cpp/sdk/include/bcs_serde.hpp:128-395 | Unique parsing across iteration orders: equal bytes, whatever follows them, come from equal values, equal followers and orders that agree |
| `SerdeOrders.NumericOrderExists` | cpp/sdk/include/bcs_serde.hpp:262-276 | Such an iteration order exists, so the two codecs do write different bytes for one map |
| `Serde.AnyListing` | cpp/sdk/include/bcs_serde.hpp:269-275 | No iteration order is excluded: every listing of a set of keys is that of some order |
| `Serde.SupportedTypes` | cpp/sdk/include/bcs_serde.hpp:116-395 | Every type built from integers, booleans and strings by options, vectors, arrays, tuples, maps, variants and structs has an operator |
| `SerdeOrders.NumericOrderDiffers` | cpp/sdk/include/bcs_serde.hpp:262-276 | They differ on 16-bit keys 1 and 256 in numeric order |
| `Serde.ReadsCanonical` | cpp/sdk/include/bcs_serde.hpp:277-293 | `BcsSerde` decodes every canonical encoding of a short value, maps included, to that value |
| `Serde.CanonicalIsWritten` | cpp/sdk/include/bcs_serde.hpp:262-276 | Canonical bytes are what `BcsSerde` writes when maps iterate in canonical order |
| `SerdeObject.BcsSerde.EncodeInteger` | cpp/sdk/include/bcs_serde.hpp:31-46 | The loop appends the minimal ULEB128 encoding |
| `SerdeObject.BcsSerde.DecodeInteger` | cpp/sdk/include/bcs_serde.hpp:51-75 | The loop reads at most four digits, as `Leb128.ShortExactly` describes |
| `SerdeObject.BcsSerde.Process` | cpp/sdk/include/bcs_serde.hpp:116-395 | One operator for both directions: in writing mode it appends the encoding and moves no cursor; in reading mode it leaves the bytes, advances the cursor by what it read and never past the end |
| `SerdeObject.BcsSerde.ProcessStr` | cpp/sdk/include/bcs_serde.hpp:165-183 | The same for strings, read byte by byte |
| `SerdeObject.BcsSerde.ProcessVec` | cpp/sdk/include/bcs_serde.hpp:187-212 | The same for vectors, resized to the length read |
| `SerdeObject.BcsSerde.ProcessMap` | cpp/sdk/include/bcs_serde.hpp:262-293 | The same for maps, where a repeated key keeps its first value |
| `Decoding.FirstInsertedStays` | cpp/sdk/include/bcs_serde.hpp:280-288 | Of entries inserted with the same key, the value of the first one stays |
| `SerdeObject.BcsSerde.ProcessOption` | cpp/sdk/include/bcs_serde.hpp:334-371 | The same for options, where any non-zero flag means present |
| `SerdeObject.BcsSerde.ProcessEnum` | cpp/sdk/include/bcs_serde.hpp:373-395 | The same for variants, where reading keeps the alternative of the object |
| `Hex.HexRoundTrip` | cpp/sdk/include/utils.hpp:199-256 | `hex_to_bytes` inverts `bytes_to_hex`, with or without the 0x prefix |
| `Hex.PairsExactly` | cpp/sdk/include/utils.hpp:199-221 | Text of even length decodes to half as many bytes; text of odd length runs past its end |
| `Hex.BytesToHex` | cpp/sdk/include/utils.hpp:245-256 | Two digits per byte, in order |
| `Hex.HexText` | cpp/sdk/include/utils.hpp:245-256 | The digits of every byte of the text: high then low, from 0123456789abcdef |
| `Hex.HexValues` | cpp/sdk/include/utils.hpp:212-215 | A character is read as digit d if and only if it is that digit, in lower or upper case |
| `Hex.UpperCaseRead` | cpp/sdk/include/utils.hpp:199-221 | AB and ab are both read as the byte AB |
| `Hex.PrefixExactly` | cpp/sdk/include/utils.hpp:206-207 | Exactly the two characters 0x are skipped in front |
| `Hex.HexToBytes` | cpp/sdk/include/utils.hpp:199-221 | The iterator loop computes the pairwise decoding whose inverse `HexRoundTrip` names |
| `Hex.HexToArray` | cpp/sdk/include/utils.hpp:223-243 | Too short below N characters, out of range from N to 2N - 1, otherwise the first N pairs |
| `Hex.ArrayRoundTrip` | cpp/sdk/include/utils.hpp:223-243 | N bytes come back from their hex text, whatever follows |
| `Resources.PathTyped` | cpp/sdk/include/violas_client2.hpp:52-72 | A resource path is a value of its type and is encoded as one kind byte and the module id or struct tag |
| `Resources.PathInjective` | cpp/sdk/include/violas_client2.hpp:456-463 | Resource paths, module ids and struct tags together, are told apart by their bytes |
| `Resources.PathSerializesExactly` | cpp/sdk/include/violas_client2.hpp:456-463 | A struct path serializes if and only if its tag nests at most 499 deep and its names and lists are in range |
| `Resources.LoadsWhatWasStored` | cpp/sdk/include/account_state_2.hpp:69-85 | A state written in any map order, with lengths below 2^28, then written as bytes and as hex, is loaded back |
| `Resources.LookupFinds` | cpp/sdk/include/account_state_2.hpp:46-66 | Lookup throws for a tag whose path cannot be serialized, returns nothing if and only if no resource is stored for the tag, and otherwise returns the value whose canonical bytes are stored |
| `Resources.ResourceLookup` | cpp/sdk/include/account_state_2.hpp:46-96 | End to end: loading the hex blob of canonical bytes of a store and asking for a tag gives the value stored for that tag and nothing otherwise |
| `Resources.AccountState.GetAccountState` | cpp/sdk/include/account_state_2.hpp:69-96 | Replaces the resources by those of the blob, or fails, leaving them alone when the blob is empty |
| `Resources.AccountState.GetResource` | cpp/sdk/include/violas_client2.hpp:81-99 | Looks the serialized path up in the resources and decodes what it finds |
| `Resources.AccountState.FetchResource` | cpp/sdk/include/account_state_2.hpp:46-66 | Loads the account state and then looks the tag up in what was loaded, which `ResourceLookup` characterizes |
| `Tasks.StepKeepsInv` | cpp/sdk/include/co_helper.hpp:19-95 | Every step of every task keeps the agreement between phases, `_prev`, results and resumptions |
| `Tasks.ResultComesFirst` | cpp/sdk/include/co_helper.hpp:27-46 | In every interleaving an awaiter is resumed, and takes the result, only after the value or exception was set, so results come from the inside out |
| `Tasks.ResumedAtMostOnce` | cpp/sdk/include/co_helper.hpp:27-33 | In every interleaving a task resumes its awaiter at most once |
| `Tasks.InTimeIsResumed` | cpp/sdk/include/co_helper.hpp:88-91 | An awaiter that registered before the final check is resumed exactly once when the run has stopped |
| `Tasks.LostExactlyWhenLate` | cpp/sdk/include/co_helper.hpp:70-95 | An awaiter stays suspended although its task looked for it if and only if it registered after the final check |
| `Tasks.LateExactlyWhenSlipped` | cpp/sdk/include/co_helper.hpp:74-91 | A registration comes after the final check if and only if the inner coroutine set its result and checked between the ready test and the registration |
| `Tasks.BackToBackCompletes` | cpp/sdk/include/co_helper.hpp:70-95 | When every registration directly follows its ready test, as on a single-threaded executor, no awaiter is lost and no destroyed frame is written to: a stopped run has completed every coroutine and resumed each registered awaiter once |
| `Tasks.WakeUpCanBeLost` | cpp/sdk/include/co_helper.hpp:76-91 | A run in which the inner coroutine ends between the ready test and the registration: the awaiter is never resumed and the registration writes to a destroyed frame |
| `Tasks.DanglingExactly` | cpp/sdk/include/co_helper.hpp:88-91 | A destroyed frame is written to if and only if some awaiter registers after the frame it registers with was destroyed |
| `Tasks.DanglingOnlyWhenLate` | cpp/sdk/include/co_helper.hpp:88-91 | Such a registration is late: it comes after the final check as well |
| `Tasks.LateWithoutDangling` | cpp/sdk/include/co_helper.hpp:76-91 | The converse does not hold: a run with a late registration into a frame that still lives |
| `Tasks.StopsDoneOrLost` | cpp/sdk/include/co_helper.hpp:27-33 | A run that stops has completed every task if and only if no awaiter was lost, and then resumed exactly the registered ones, once each |
| `Tasks.RunsEnd` | cpp/sdk/include/co_helper.hpp:19-95 | No run of n tasks has more than 8n steps |
| `Tasks.EndingExactly` | cpp/sdk/include/co_helper.hpp:35-48 | The ending on record for a coroutine is e if and only if it set e, in every interleaving |
| `Tasks.ExceptionsPropagate` | cpp/sdk/include/co_helper.hpp:80-83 | Once a coroutine has ended in an exception, every outer one that has ended has done so too, as far out as nobody catches what `await_resume` rethrows |
| `Tasks.ChainThrows` | cpp/sdk/include/co_helper.hpp:118-164 | If the innermost of n chained coroutines throws and nobody catches, all n end in an exception |
| `Tasks.AnyEndings` | cpp/sdk/include/co_helper.hpp:35-48 | For every list of endings, values and exceptions mixed, some run of the chain stops with exactly these, and nobody in it catches an exception that the list carries on |
| `Tasks.BackToBackRun` | cpp/sdk/include/co_helper.hpp:70-95 | For every number of coroutines and all endings, a run from the beginning registers every awaiter back to back, completes everything and resumes every awaiter once |
| `Tasks.ChainForms` | cpp/sdk/include/co_helper.hpp:118-124 | The chain of registered awaiters is reached from the beginning by such registrations |
| `Tasks.ChainCompletes` | cpp/sdk/include/co_helper.hpp:118-164 | From n tasks each registered on the next inner one, every stopped run has completed all n, each setting its result once and each awaiter resumed once |

## Left out

- `f32`, `f64` and `char`: the source always throws for them.
- Signed integers as a type of their own: they share the bytes of their unsigned image.
- Serializers without strict map ordering: BCS always enforces it.
- Metadata variants, block metadata and the `Transaction` enum: the same derive pattern, easy members only.
- `std::set` and C arrays in `BcsSerde`, and types that refer to themselves there: no use of them reaches the modelled lookup.
- `BcsSerde` reading into an object that is not default-constructed.
- Tasks: modelled on values as a state machine, not as classes updated in place; the value inside a result, several awaiters of one task, weak memory and the duplicate `Task` in `utils.hpp` are not captured.
- Resources.AccountState.GetAccountState: says nothing about the resources left behind by a blob that ends early, because reading past the end is undefined in C++.
- Internals of `std::sort`, `std::map`, `std::promise`, `std::future` and `std::stringstream`.
- The bodies of the generated constructors in `diem_framework`: they fill records with bytecode constants.
- JSON-RPC, wallet, ed25519, SHA3, JNI, AES, command line, NFT store and its database: network, foreign code and user interface.
