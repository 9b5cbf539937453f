# A Dafny model of the ns-3 Bundle Protocol v7 core

This project models the protocol core of an ns-3 module for the Bundle
Protocol version 7 (RFC 9171). The model consists of immutable datatypes and
pure functions over them, and covers:

- the CBOR codec the blocks are written in;
- the block checksums;
- endpoint identifiers, bundle identifiers and DTN time;
- the primary and canonical block layouts, including the typed extension
  blocks;
- bundle assembly and fragmentation;
- the fragmentation manager's reassembly;
- bundle status reports;
- the in-memory bundle store;
- the bookkeeping of the epidemic and spray-and-wait routers.

The lemmas prove the round trips, invariants and ordering laws that the code
relies on or promises.

## Modelling conventions

- **CBOR.**
  - Values are a `CborValue` datatype: unsigned, negative, byte string, text
    string, array, map (a sequence of entries), tag, and simple value.
  - The head encoding (section 3.1 of RFC 8949) is modelled at the byte level.
  - The code's `Cbor::Encode` returns its whole 1024-byte buffer, starts
    every write at offset 0 (so string content lands over the head) and
    never writes the children of arrays, maps and tags. Its `Cbor::Decode`
    reads only major types 0 and 1.
  - The model's `Encode` and `Decode` are the complete codec that the code's
    comments describe. The code's versions are kept as `EncodeAsWritten` and
    `DecodeAsWritten` (see Findings).
  - Every block, bundle, endpoint and status-report layout is a function to
    and from `CborValue`. Byte-level `ToCbor`/`FromCbor` compose those
    functions with the complete codec. This departs from the code, whose
    byte-level forms are broken by the two codec defects.
- **Checksums.**
  - The CRC-16 follows the code bit for bit. It is CRC-16/CCITT-FALSE, not
    the CRC-16/X.25 that section 4.2.2 of RFC 9171 names; the model follows
    the code.
  - The code documents its CRC-32 as CRC-32C but feeds the polynomial to a
    right-shifting loop in normal form. The model keeps that loop as
    `CalculateCRC32AsWritten`, and every block checksum uses it, as the code
    does. The CRC-32C the code documents is `CalculateCRC32`, defined beside
    it and pinned to its check value (see Findings).
- **Time.**
  - Simulation time (`ns3::Time`) is a signed 64-bit count of nanoseconds.
    `Int64Of` gives the two's-complement wrap of a result past that range.
    `ToTime`, `MilliSeconds` and the expiry sum `creationTime + lifetime`
    all wrap this way.
  - Lifetimes are whole milliseconds.
  - DTN times are seconds plus nanoseconds. `Instant` is the exact number of
    nanoseconds one denotes.
  - The clock reading `now` is always a parameter.
- **Identifier keys.** Maps keyed by `BundleID` (the store, the descriptors,
  the copy counts and the fragment sets) are keyed by a canonical key. A
  lemma shows that two identifiers have the same key exactly when
  `operator==` holds between them.
- **Unordered containers.** The iteration order of `std::unordered_map` is a
  parameter (`order`, `peerOrder`) that enumerates the keys once each.
- **Convergence-layer senders.** These are an oracle: a `Sender` carries
  `isReachable` and `send` functions.
- **Routers.** A router is a value holding:
  - the local node and the bundle store;
  - the peers, keyed by node URI;
  - the descriptors;
  - the sent and failed counters.

  Every routing operation returns the new router. A dispatch also returns
  the sequence of sends it made (`Attempt`: bundle key, peer, outcome), so
  the properties about whom a bundle went to can be stated.
- **Pointers.** `Ptr` values that may be null are `Option`. A failed lookup
  is `None`.

## Model

| member | source | states |
|---|---|---|
| BoundedInts.Int64Of | dtn7-protocol/model/cbor.cc:633-641 | the 64-bit two's-complement result lies in the `int64_t` range, agrees with the exact value modulo 2^64, and equals it when it is in range |
| BoundedInts.Int64OfAdd | dtn7/model/routing.cc:191-194 | adding two wrapped values and wrapping gives the wrap of the exact sum |
| BoundedInts.ToBigEndian | dtn7-protocol/model/cbor.cc:662-690 | the big-endian form of a value in `n` bytes has exactly `n` bytes |
| BoundedInts.FromBigEndian | dtn7-protocol/model/cbor.cc:693-759 | reading `n` big-endian bytes gives a value below 256^n |
| BoundedInts.BigEndianRoundTrip | dtn7-protocol/model/cbor.cc:662-759 | reading back the `n`-byte big-endian form of a value below 256^n gives the value |
| Lexicographic.LexIsStrictTotalOrder | dtn7-protocol/model/endpoint.cc:83-87 | lexicographic comparison over a strict total order on elements is again a strict total order |
| Lexicographic.StringLessIsStrictTotalOrder | dtn7-protocol/model/endpoint.cc:83-87 | `std::string` `<` is irreflexive, transitive and total on distinct strings |
| Strings.IndexOf | dtn7-protocol/model/endpoint.cc:172-194 | `find` returns the first position holding the character, or the length when there is none |
| Strings.ContainsMeansSomewhere | dtn7-protocol/model/endpoint.cc:137-152 | a string contains a character exactly when some position holds it |
| Strings.DecimalString | dtn7-protocol/model/block-type-codes.cc:21 | `std::to_string` of an unsigned value is a non-empty string of digits |
| Strings.DecimalRoundTrip | dtn7-protocol/model/block-type-codes.cc:21 | the digits `to_string` writes read back as the number |
| Strings.DecimalStringInjective | dtn7-protocol/model/block-type-codes.cc:21 | distinct numbers get distinct decimal names |
| Strings.DigitPrefixLength | dtn7-protocol/model/endpoint.cc:326-340 | the run of leading digits is all digits and is followed by a non-digit or the end |
| Strings.StoullOrZero | dtn7-protocol/model/endpoint.cc:229-243 | a digit string whose value fits in 64 bits converts to that value |
| BlockTypeCodes.BlockTypeFromString | dtn7-protocol/model/block-type-codes.cc:25-46 | the result is always one of the four named block types; any type other than the payload default came from its own name |
| BlockTypeCodes.BlockTypeNameRoundTrip | dtn7-protocol/model/block-type-codes.cc:7-46 | parsing a block type's name gives the type back exactly for the four named types; every other code comes back as the payload block |
| BlockTypeCodes.BlockTypeToStringInjective | dtn7-protocol/model/block-type-codes.cc:7-23 | distinct block types, named or `UnknownBlock_<n>`, get distinct names |
| BlockTypeCodes.CrcTypeFromString | dtn7-protocol/model/block-type-codes.cc:64-81 | the result is always a known CRC type; any type other than the no-CRC default came from its own name |
| BlockTypeCodes.CrcTypeNameRoundTrip | dtn7-protocol/model/block-type-codes.cc:48-81 | parsing a CRC type's name gives the type back exactly for the three known types; unknown codes come back as no CRC |
| CrcCheckValues.CalculateCRC16CheckValue | dtn7-protocol/model/crc.cc:7-31 | the CRC-16 loop (polynomial 0x1021, initial 0xFFFF, no final XOR) gives 0x29B1 on "123456789", the CRC-16/CCITT-FALSE check value |
| CrcCheckValues.CalculateCRC32AsWrittenIsNotCastagnoli | dtn7-protocol/model/crc.cc:33-57 | the CRC-32 loop as written gives 0xF28417BE on "123456789", not the CRC-32C check value 0xE3069283 |
| CrcCheckValues.CalculateCRC32CheckValue | dtn7-protocol/model/crc.cc:33-57 | the corrected loop with the reflected Castagnoli polynomial gives the CRC-32C check value |
| Crc.Crc16OverConcat | dtn7-protocol/model/crc.cc:13-28 | the CRC-16 register is a fold: processing `a + b` is processing `a` and then continuing on `b` |
| Crc.Crc32OverConcat | dtn7-protocol/model/crc.cc:39-54 | the same fold property for the CRC-32 register |
| Crc.CalculateCRC | dtn7-protocol/model/crc.cc:59-89 | CRC-16 gives the two big-endian bytes of the CRC-16 loop; CRC-32 gives the four big-endian bytes of the CRC-32 loop as written (not CRC-32C); NO_CRC or any other code gives no bytes |
| Crc.VerifyCRC | dtn7-protocol/model/crc.cc:91-116 | verification passes exactly when the type is NO_CRC or the stored bytes equal the computed ones in length and every position |
| Crc.CalculatedVerifies | dtn7-protocol/model/crc.cc:59-116 | a checksum computed for some data always verifies against that data, for every type |
| Cbor.TypeRankCodes | dtn7-protocol/model/cbor.cc:71-107 | `GetType` gives each alternative its own code, in `CborType` order: 0 exactly for unsigned, 1 for negative, 2 for bytes, 3 for text, 4 for arrays, 5 for maps, 6 for tags, 7 for simple values and 8 for invalid |
| Cbor.FromInt64 | dtn7-protocol/model/cbor.cc:22-32 | the `int64_t` constructor makes an unsigned value exactly for `v >= 0` and a negative value exactly for `v < 0` |
| Cbor.GetInteger | dtn7-protocol/model/cbor.cc:210-225 | the result is an `int64_t`; an unsigned value up to INT64_MAX and a negative value read as themselves; everything else reads as 0 |
| Cbor.GetBoolean | dtn7-protocol/model/cbor.cc:295-302 | only the simple value `true` reads as true |
| Cbor.EqualIsIdentity | dtn7-protocol/model/cbor.cc:313-355 | `operator==` (same type, then equal payload, recursively) holds exactly for identical values |
| Cbor.ItemsEqualIsIdentity | dtn7-protocol/model/cbor.cc:332-333 | element-wise equality of equally long arrays is identity |
| Cbor.EntriesEqualIsIdentity | dtn7-protocol/model/cbor.cc:334-335 | entry-wise equality of equally long maps is identity |
| Cbor.EntryEqualIsIdentity | dtn7-protocol/model/cbor.cc:334-335 | two map entries are equal exactly when key and value are |
| Cbor.ByteLessIsStrictTotalOrder | dtn7-protocol/model/cbor.cc:358-398 | comparing bytes is a strict total order, so byte strings compare lexicographically |
| Cbor.LessIrreflexive | dtn7-protocol/model/cbor.cc:358-398 | no value is less than itself |
| Cbor.LessTotal | dtn7-protocol/model/cbor.cc:358-398 | of two distinct values one is less than the other |
| Cbor.LessTransitive | dtn7-protocol/model/cbor.cc:358-398 | `operator<` is transitive across types and nested containers |
| Cbor.LessIsStrictTotalOrder | dtn7-protocol/model/cbor.cc:358-398 | `operator<` (type rank first, then payload) is a strict total order, so values can key a `std::map` |
| Cbor.HeaderRoundTrip | dtn7-protocol/model/cbor.cc:649-659 | for major type below 8 and info below 32, decoding the initial byte gives back both |
| Cbor.EncodeUnsigned | dtn7-protocol/model/cbor.cc:662-690 | the head carries the major type and is 1, 2, 3, 5 or 9 bytes long as its additional info says |
| Cbor.DecodeUnsigned | dtn7-protocol/model/cbor.cc:693-759 | decoding fails exactly on an empty buffer, a major-type mismatch, info 28-31 or a truncated argument; otherwise it reads the head's length, and info up to 23 is the value itself |
| Cbor.UnsignedRoundTrip | dtn7-protocol/model/cbor.cc:662-759 | decoding an encoded head gives back the argument and the head's length, whatever follows it |
| Cbor.InlineRoundTrip | dtn7-protocol/model/cbor.cc:666-669 | an argument up to 23 sits in the initial byte and reads back in one byte |
| Cbor.OneByteRoundTrip | dtn7-protocol/model/cbor.cc:670-674 | an argument from 24 to 255 takes info 24 and one more byte |
| Cbor.WideRoundTrip | dtn7-protocol/model/cbor.cc:675-690 | info 25, 26 and 27 carry 2, 4 and 8 big-endian bytes that read back as the argument |
| Cbor.TextRoundTrip | dtn7-protocol/model/cbor.cc:239-247 | a string whose characters are bytes survives the trip to bytes and back |
| Cbor.DecodeItem | dtn7-protocol/model/cbor.cc:604-646 | a successful decode consumes at least one byte and no more than the buffer holds |
| Cbor.DecodeItems | dtn7-protocol/model/cbor.cc:546-556 | decoding the `count` elements that follow an array head, the inverse of the element loop, yields exactly `count` values |
| Cbor.DecodeEntries | dtn7-protocol/model/cbor.cc:557-570 | decoding the `count` entries that follow a map head, the inverse of the entry loop, yields exactly `count` entries |
| Cbor.DecodeEncode | dtn7-protocol/model/cbor.cc:510-646 | decoding the encoding of a well-formed value, with anything after it, gives the value and the encoding's length |
| Cbor.DecodeEncodeSimple | dtn7-protocol/model/cbor.cc:580-594 | a simple value encodes as one byte up to 23 and as (7, 24) plus the value otherwise, and reads back |
| Cbor.DecodeEncodeArray | dtn7-protocol/model/cbor.cc:546-556 | an array encoded as its count head followed by its elements reads back |
| Cbor.DecodeEncodeMap | dtn7-protocol/model/cbor.cc:557-570 | a map encoded as its count head followed by key and value encodings reads back |
| Cbor.DecodeEncodeTag | dtn7-protocol/model/cbor.cc:571-579 | a tag encoded as its number head followed by the tagged value reads back |
| Cbor.DecodeEncodeBytes | dtn7-protocol/model/cbor.cc:532-538 | a byte string encoded as its length head followed by its bytes reads back |
| Cbor.DecodeEncodeText | dtn7-protocol/model/cbor.cc:539-545 | a text string of bytes encoded as its length head followed by its bytes reads back |
| Cbor.DecodeEncodeItems | dtn7-protocol/model/cbor.cc:553-554 | the concatenated encodings of well-formed elements decode as those elements |
| Cbor.DecodeEncodeEntry | dtn7-protocol/model/cbor.cc:563-569 | a key encoding followed by a value encoding decodes as that entry |
| Cbor.DecodeEncodeEntries | dtn7-protocol/model/cbor.cc:563-569 | the concatenated encodings of well-formed entries decode as those entries |
| Cbor.DecodeOfEncode | dtn7-protocol/model/cbor.cc:510-646 | the complete decoder inverts the complete encoder on every well-formed value |
| Cbor.EncodeInjective | dtn7-protocol/model/cbor.cc:510-601 | distinct well-formed values never share an encoding |
| Cbor.EncodeAsWritten | dtn7-protocol/model/cbor.cc:510-579 | the encoder as written returns the whole 1024-byte buffer; it fails only for string content longer than the buffer; integers and simple values start the buffer with their complete encoding; an invalid value leaves the buffer as it was |
| Cbor.EncodeAsWrittenLosesElements | dtn7-protocol/model/cbor.cc:510-556 | as written, `[1]` and `[2]` both encode as 0x81 followed by 1023 bytes the encoder never wrote, whatever those are; the complete encoder keeps them apart |
| Cbor.EncodeAsWrittenOverwritesHead | dtn7-protocol/model/cbor.cc:532-545 | as written, a byte string at least as long as its head comes out as its bare content followed by unwritten bytes, the same as the text string of those bytes |
| Cbor.EncodeAsWrittenByteString | dtn7-protocol/model/cbor.cc:532-538 | as written, h'AB' comes out as 0xAB followed by unwritten bytes, where the complete encoding is 0x41 0xAB |
| Cbor.EncodeAsWrittenIntegers | dtn7-protocol/model/cbor.cc:519-531 | integers encoded as written are read back by the decoder as written, whatever the rest of the buffer holds |
| Cbor.WrapInt64 | dtn7-protocol/model/cbor.cc:633-641 | the cast to `int64_t` lands in range and agrees with its argument modulo 2^64 |
| Cbor.DecodeAsWrittenOnIntegers | dtn7-protocol/model/cbor.cc:604-646 | on in-range integers the decoder as written returns the value and agrees with the complete decoder |
| Cbor.DecodeAsWrittenRejectsArrays | dtn7-protocol/model/cbor.cc:622-645 | as written, the encoding of the empty array does not decode, although the complete decoder reads it back |
| Cbor.DecodeAsWrittenWrapsNegative | dtn7-protocol/model/cbor.cc:633-641 | as written, the negative head with argument 2^64-1 decodes as the unsigned 0 through the int64 wrap; the complete decoder refuses it |
| Cbor.DecodeAsWrittenDiscrepancies | dtn7-protocol/model/cbor.cc:604-646 | both discrepancies of the decoder as written, side by side |
| Endpoint.Make | dtn7-protocol/model/endpoint.cc:17-69 | the constructor keeps a string exactly when it is a valid `dtn` or `ipn` URI, splitting it at the first colon; every other string becomes `dtn:none` |
| Endpoint.NoneWellFormed | dtn7-protocol/model/endpoint.cc:62-68 | `dtn:none` is itself a well-formed endpoint |
| Endpoint.Parse | dtn7-protocol/model/endpoint.cc:121-129 | `Parse` yields an endpoint exactly for a valid string, and that endpoint's URI is the string |
| Endpoint.MakeIdempotent | dtn7-protocol/model/endpoint.cc:17-69 | normalising an endpoint's URI again changes nothing |
| Endpoint.MakeOfWellFormed | dtn7-protocol/model/endpoint.cc:132-135 | `EndpointID(e.ToString())` is `e` for every well-formed endpoint |
| Endpoint.EqualIsIdentity | dtn7-protocol/model/endpoint.cc:71-75 | comparing URIs is comparing endpoints: equal URIs mean equal scheme and scheme-specific part |
| Endpoint.LessIsStrictTotalOrder | dtn7-protocol/model/endpoint.cc:83-87 | `<` on endpoints, the string order of their URIs, is a strict total order |
| Endpoint.IsNoneMeansDtnNone | dtn7-protocol/model/endpoint.cc:154-158 | `IsNone` holds exactly for `dtn:none` |
| Endpoint.IsSingleton | dtn7-protocol/model/endpoint.cc:137-152 | singleton means a `dtn` endpoint without `*`, or any `ipn` endpoint |
| Endpoint.DtnHostServiceRoundTrip | dtn7-protocol/model/endpoint.cc:172-218 | `dtn://host/service` is valid, and its host and service read back as written |
| Endpoint.SplitAtFirstColon | dtn7-protocol/model/endpoint.cc:26-40 | a scheme without `:` is split off at the colon that follows it |
| Endpoint.IpnNodeServiceRoundTrip | dtn7-protocol/model/endpoint.cc:220-268 | `ipn:N.S` is valid, and its node and service numbers read back as N and S |
| Endpoint.FromCborValue | dtn7-protocol/model/endpoint.cc:282-308 | whatever it accepts, the value decoder yields a well-formed endpoint |
| Endpoint.FromCbor | dtn7-protocol/model/endpoint.cc:282-308 | whatever it accepts, the byte decoder yields a well-formed endpoint |
| Endpoint.UriIsSchemeColonSsp | dtn7-protocol/model/endpoint.cc:270-280 | a well-formed endpoint's URI is its scheme, a colon and its scheme-specific part, which is what `ToCbor` writes |
| Endpoint.CborRoundTrip | dtn7-protocol/model/endpoint.cc:270-308 | decoding the CBOR form `[scheme, ssp]` of an endpoint gives it back |
| DtnTime.ToTime | dtn7-protocol/model/dtn-time.cc:41-46 | the simulation time lies in the `int64_t` range, agrees with the exact instant modulo 2^64, and is that instant whenever it fits |
| DtnTime.ToTimeWraps | dtn7-protocol/model/dtn-time.cc:41-46 | ten billion seconds lie past `INT64_MAX` nanoseconds and convert to a time before the epoch |
| DtnTime.FromTime | dtn7-protocol/model/dtn-time.cc:48-54 | a clock reading splits into a normalised DTN time denoting the same instant |
| DtnTime.FromTimeToTime | dtn7-protocol/model/dtn-time.cc:41-54 | converting a clock reading to a DTN time and back gives the same nanoseconds |
| DtnTime.ToTimeFromTime | dtn7-protocol/model/dtn-time.cc:41-54 | a normalised DTN time survives the trip through simulation time exactly when its instant fits in an `int64_t` |
| DtnTime.OrderLaws | dtn7-protocol/model/dtn-time.cc:56-100 | `<` is irreflexive and transitive; exactly one of `a < b`, `a == b`, `b < a` holds; `<=`, `>` and `>=` are its derived forms |
| DtnTime.LessIsEarlier | dtn7-protocol/model/dtn-time.cc:70-82 | on normalised times, `<` on (seconds, nanoseconds) is the order of the instants they denote, and of their simulation times while those do not wrap |
| BundleId.EqualIffSameKey | dtn7-protocol/model/bundle-id.cc:29-59 | two identifiers are equal exactly when they agree on source, timestamp, sequence and fragment flag, and, for fragments, offset |
| BundleId.EqualIsEquivalence | dtn7-protocol/model/bundle-id.cc:29-59 | `operator==` is reflexive, symmetric and transitive |
| BundleId.LessIsStrictOrderModuloEqual | dtn7-protocol/model/bundle-id.cc:67-101 | `<` is irreflexive and transitive, and two identifiers are equal exactly when neither is less than the other |
| BundleId.HashRespectsEqual | dtn7-protocol/model/bundle-id.cc:119-136 | equal identifiers hash alike, for any string and integer hash functions |
| Flags.SetDecidesItsFlag | dtn7-protocol/model/primary-block.cc:106-118 | after setting or clearing a flag, that flag reads as set or clear |
| Flags.SetKeepsOtherFlags | dtn7-protocol/model/primary-block.cc:106-208 | setting or clearing a flag leaves every disjoint flag as it was |
| Flags.ToUint64 | dtn7-protocol/model/primary-block.cc:283 | the flag word converts to the unsigned integer the encoding carries and back |
| PrimaryBlock.LifetimeNanos | dtn7-protocol/model/primary-block.cc:354 | `MilliSeconds` of a lifetime lies in the `int64_t` range, agrees with the exact nanoseconds modulo 2^64, and equals them when they fit |
| PrimaryBlock.ExpirationTime | dtn7/model/routing.cc:190-194 | creation time plus lifetime in `ns3::Time` is the wrap of the exact expiry instant, and that instant itself when it fits |
| PrimaryBlock.ExpirationWraps | dtn7/model/memory-bundle-store.cc:197-205 | a bundle created at the epoch with a lifetime of 9223372036855 ms expires at -9223372036854551616 ns, before it was created |
| PrimaryBlock.Default | dtn7-protocol/model/primary-block.cc:11-25 | the default block has version 7, no flags, no CRC, and `dtn:none` endpoints |
| PrimaryBlock.SetFlag | dtn7-protocol/model/primary-block.cc:106-208 | each setter decides its own flag and changes no other field |
| PrimaryBlock.ToCborValue | dtn7-protocol/model/primary-block.cc:276-313 | the block is an array of 8 fields, plus offset and total length for a fragment, plus the CRC when a CRC type is set and the CRC is non-empty |
| PrimaryBlock.FromCborValue | dtn7-protocol/model/primary-block.cc:316-401 | a non-array, fewer than 8 elements or a timestamp that is not a pair is refused; an accepted block has well-formed endpoints |
| PrimaryBlock.ReadFields | dtn7-protocol/model/primary-block.cc:337-342 | reading an array that passed the checks: scalars are read unchecked, so non-integers read as 0 and non-text endpoints as `dtn:none` |
| PrimaryBlock.CborValueRoundTrip | dtn7-protocol/model/primary-block.cc:276-401 | decoding a block's array gives back what the array carries; a block with a CRC type but no CRC is refused |
| PrimaryBlock.MissingCrcRefused | dtn7-protocol/model/primary-block.cc:382-395 | a block with a CRC type but an empty CRC does not read back, because the CRC field is missing |
| PrimaryBlock.CarriedFieldsRead | dtn7-protocol/model/primary-block.cc:316-401 | with no CRC type or a computed CRC, the array reads back as the carried fields |
| PrimaryBlock.ToCborValueWellFormed | dtn7-protocol/model/primary-block.cc:276-313 | a block whose fields fit their wire types encodes as a well-formed CBOR value |
| PrimaryBlock.CborRoundTrip | dtn7-protocol/model/primary-block.cc:276-401 | `FromCbor(ToCbor(b)) == b` for a block with whole-second timestamp, whole-millisecond lifetime, and a computed CRC or none |
| PrimaryBlock.NonFragmentIgnoresFragmentFields | dtn7-protocol/model/primary-block.cc:299-304 | changing the offset or total length of a non-fragment changes neither its encoding nor its CRC check |
| PrimaryBlock.CalculateCRC | dtn7-protocol/model/primary-block.cc:211-251 | computing the CRC changes only the CRC field, which gets 2 bytes for CRC-16 and 4 for CRC-32, from the loops as written |
| PrimaryBlock.CheckCRCMeansCalculated | dtn7-protocol/model/primary-block.cc:254-273 | the CRC checks out exactly when the type is NO_CRC or the block equals its recalculated form |
| CanonicalBlock.CreateBlock | dtn7-protocol/model/canonical-block.cc:34-87 | the factory keeps type, number, flags, CRC type and data, and picks the payload, previous-node, bundle-age or hop-count class exactly for codes 1, 6, 7 and 10 |
| CanonicalBlock.SetFlag | dtn7-protocol/model/canonical-block.cc:125-197 | each setter decides its own flag and changes no other field |
| CanonicalBlock.ToCborValue | dtn7-protocol/model/canonical-block.cc:265-284 | the block is an array `[type, number, flags, crcType, data]`, plus the CRC when set |
| CanonicalBlock.FromCborValue | dtn7-protocol/model/canonical-block.cc:287-345 | a non-array, fewer than 5 elements or data that is not a byte string is refused; accepted data is the byte string read |
| CanonicalBlock.CborValueRoundTrip | dtn7-protocol/model/canonical-block.cc:265-345 | decoding a block's array gives back what it carries; a block with a CRC type but no CRC is refused |
| CanonicalBlock.ToCborValueWellFormed | dtn7-protocol/model/canonical-block.cc:265-284 | a block whose fields fit their wire types encodes as a well-formed CBOR value |
| CanonicalBlock.CborRoundTrip | dtn7-protocol/model/canonical-block.cc:265-345 | `FromCbor(ToCbor(b)) == b` for every block with a computed CRC or none |
| CanonicalBlock.CalculateCRC | dtn7-protocol/model/canonical-block.cc:200-240 | computing the CRC changes only the CRC field, which gets 2 bytes for CRC-16 and 4 for CRC-32, from the loops as written |
| CanonicalBlock.CheckCRCMeansCalculated | dtn7-protocol/model/canonical-block.cc:243-262 | the CRC checks out exactly when the type is NO_CRC or the block equals its recalculated form |
| CanonicalBlock.NewPayloadBlock | dtn7-protocol/model/canonical-block.cc:370-398 | a payload block is block number 1 and its payload reads back as given |
| CanonicalBlock.GetPreviousNode | dtn7-protocol/model/canonical-block.cc:442-460 | the previous node is a well-formed endpoint, and `dtn:none` when the data does not decode |
| CanonicalBlock.SetPreviousNode | dtn7-protocol/model/canonical-block.cc:463-472 | setting the previous node changes only the block's data |
| CanonicalBlock.PreviousNodeRoundTrip | dtn7-protocol/model/canonical-block.cc:442-472 | the previous node reads back as it was set |
| CanonicalBlock.NewPreviousNodeBlock | dtn7-protocol/model/canonical-block.cc:421-439 | a previous-node block is block number 2 with no flags or CRC, naming the given node |
| CanonicalBlock.GetAge | dtn7-protocol/model/canonical-block.cc:517-540 | empty data reads as age 0 |
| CanonicalBlock.SetAge | dtn7-protocol/model/canonical-block.cc:543-553 | setting the age changes only the block's data |
| CanonicalBlock.AgeRoundTrip | dtn7-protocol/model/canonical-block.cc:517-553 | the age reads back as it was set |
| CanonicalBlock.NewBundleAgeBlock | dtn7-protocol/model/canonical-block.cc:495-514 | a bundle-age block is block number 3, holding the given age |
| CanonicalBlock.HopCountDataReads | dtn7-protocol/model/canonical-block.cc:602-651 | the pair `[limit, count]` reads back as that limit and count |
| CanonicalBlock.SetLimit | dtn7-protocol/model/canonical-block.cc:654-668 | a new limit keeps the count |
| CanonicalBlock.SetCount | dtn7-protocol/model/canonical-block.cc:671-685 | a new count keeps the limit |
| CanonicalBlock.Increment | dtn7-protocol/model/canonical-block.cc:688-691 | incrementing adds one to the count (wrapping at 2^64) and keeps the limit |
| CanonicalBlock.IncrementReachesLimit | dtn7-protocol/model/canonical-block.cc:688-697 | from below the limit, one increment makes the block exceeded exactly when the count reaches the limit |
| CanonicalBlock.NewHopCountBlock | dtn7-protocol/model/canonical-block.cc:576-599 | a hop-count block is block number 4, holding the given limit and count |
| Bundle.GetId | dtn7-protocol/model/bundle.cc:62-70 | the identifier is the primary block's source, creation time, sequence number, fragment flag and offset |
| Bundle.MaxNumber | dtn7-protocol/model/bundle.cc:107-121 | the largest block number in use, 0 when there are no blocks |
| Bundle.AddBlock | dtn7-protocol/model/bundle.cc:107-121 | the block is appended; number 0 is replaced by one more than the largest number in use (1 for no blocks); any other number is kept |
| Bundle.AddBlocks | dtn7-protocol/model/bundle.cc:107-121 | adding blocks one by one appends them in order |
| Bundle.FirstOfType | dtn7-protocol/model/bundle.cc:124-135 | the first position holding a block of the type, or the length when there is none |
| Bundle.GetBlockByType | dtn7-protocol/model/bundle.cc:124-135 | the lookup finds nothing exactly when no block has the type; otherwise it returns the first block of the type |
| Bundle.GetBlocksByType | dtn7-protocol/model/bundle.cc:138-151 | the result holds exactly the blocks of the type |
| Bundle.OfTypeConcat | dtn7-protocol/model/bundle.cc:138-151 | filtering by type distributes over concatenation, so the order of the blocks is kept |
| Bundle.FirstOfBlocksByType | dtn7-protocol/model/bundle.cc:124-151 | the single lookup finds nothing exactly when the list is empty, and otherwise finds its head |
| Bundle.RemoveBlockByType | dtn7-protocol/model/bundle.cc:154-166 | removal reports success exactly when a block of the type exists; on failure the bundle is unchanged |
| Bundle.RemoveOnlyFirstMatch | dtn7-protocol/model/bundle.cc:154-166 | removal drops only the first block of the type and keeps every other block of every type in order |
| Bundle.SetPayload | dtn7-protocol/model/bundle.cc:187-200 | afterwards the payload is the given data; an existing payload block is updated in place, otherwise a block is added |
| Bundle.CalculateCRC | dtn7-protocol/model/bundle.cc:203-213 | after computing every block's CRC the whole bundle checks out, with the blocks otherwise unchanged |
| Bundle.CalculateCRCKeepsPayload | dtn7-protocol/model/bundle.cc:203-213 | computing the CRCs keeps the payload |
| Bundle.MustNewBundle | dtn7-protocol/model/bundle.cc:29-59 | a new bundle is not a fragment, checks out and carries the given payload |
| Bundle.BlockValues | dtn7-protocol/model/bundle.cc:237-267 | the canonical blocks are written in order, each as its own CBOR array |
| Bundle.AddDecodedBlocks | dtn7-protocol/model/bundle.cc:290-315 | reading the later elements keeps the primary block and adds at most one block per element, skipping malformed ones |
| Bundle.FromCborValue | dtn7-protocol/model/bundle.cc:270-318 | a non-array, an empty array or an unreadable first element is refused; otherwise the primary block is the first element read |
| Bundle.AddDecodedBlocksOfEncoded | dtn7-protocol/model/bundle.cc:290-315 | the arrays of encodable blocks read back as exactly those blocks |
| Bundle.CborValueRoundTrip | dtn7-protocol/model/bundle.cc:237-318 | decoding a bundle's array gives the bundle back |
| Bundle.ToCborValueWellFormed | dtn7-protocol/model/bundle.cc:237-267 | a bundle whose fields fit their wire types encodes as a well-formed CBOR value |
| Bundle.CborRoundTrip | dtn7-protocol/model/bundle.cc:237-318 | `FromCbor(ToCbor(b)) == b` for every encodable bundle |
| Bundle.ReplicatedBlocks | dtn7-protocol/model/bundle.cc:371-378 | the blocks copied into fragments are non-payload blocks that must be replicated |
| Bundle.MakeFragment | dtn7-protocol/model/bundle.cc:340-385 | a fragment has the fragment flag, the given offset and the original payload length as total, and its CRCs check out |
| Bundle.PiecesCover | dtn7-protocol/model/bundle.cc:351-369 | the slices cut every `step` bytes cover the payload in order, once |
| Bundle.PiecesOffsets | dtn7-protocol/model/bundle.cc:351-354 | the `i`th slice starts `i` steps after the first |
| Bundle.MakeFragmentsPayloads | dtn7-protocol/model/bundle.cc:361-367 | the fragments' payloads are the slices of the payload |
| Bundle.Fragment | dtn7-protocol/model/bundle.cc:321-392 | no fragments for a must-not-fragment bundle, a bundle that already fits, a bundle with no payload block, or a limit below 2; otherwise every fragment is flagged, checks out and records the payload length as total |
| Bundle.FragmentOffsets | dtn7-protocol/model/bundle.cc:351-354 | the `i`th fragment starts `i` times half the limit into the payload |
| Bundle.FragmentsJoin | dtn7-protocol/model/bundle.cc:321-392 | the fragments' payloads, joined in order, are the original payload |
| Bundle.FragmentAsWrittenNeverEnds | dtn7-protocol/model/bundle.cc:351-354 | as written, with a limit below 2 the offset never reaches a non-zero payload length, so the loop never ends |
| Fragmentation.CalculateFragmentPayloadSize | dtn7-protocol/model/fragmentation-manager.cc:388-424 | the size computed in `size_t` arithmetic stays below 2^64 |
| Fragmentation.SizeTPieceSizeExact | dtn7-protocol/model/fragmentation-manager.cc:93-123 | for the fragments the loop cuts, no `size_t` expression wraps around |
| Fragmentation.CountBounds | dtn7-protocol/model/fragmentation-manager.cc:84-88 | the fragment count is the ceiling of total over budget: 0 for an empty payload, and the last fragment starts before the end |
| Fragmentation.LoopPiecesArePieces | dtn7-protocol/model/fragmentation-manager.cc:93-123 | the counted loop cuts the same slices as cutting every `budget` bytes |
| Fragmentation.Copies | dtn7-protocol/model/fragmentation-manager.cc:126-138 | the replicated blocks are copied one for one |
| Fragmentation.FragmentBundle | dtn7-protocol/model/fragmentation-manager.cc:26-159 | every fragment is flagged, checks out and records the payload length as total |
| Fragmentation.FragmentBundleRefuses | dtn7-protocol/model/fragmentation-manager.cc:33-62 | no fragments for a must-not-fragment bundle, an administrative record, a bundle that fits, or one without a payload block |
| Fragmentation.FragmentBundleSplits | dtn7-protocol/model/fragmentation-manager.cc:67-88 | when there are fragments, the budget is the limit minus the overhead (or half the limit), it is positive, and the payload is split by it |
| Fragmentation.SplitLayout | dtn7-protocol/model/fragmentation-manager.cc:93-123 | fragment `i` starts at `i` times the budget and carries between 1 and `budget` bytes |
| Fragmentation.SplitJoins | dtn7-protocol/model/fragmentation-manager.cc:93-123 | the fragments' payloads, joined in order, are the payload |
| Fragmentation.SplitCarriesReplicatedBlocks | dtn7-protocol/model/fragmentation-manager.cc:126-138 | every fragment carries verbatim copies of the replicated blocks |
| Fragmentation.SplitPrimary | dtn7-protocol/model/fragmentation-manager.cc:112-122 | each fragment's primary block is the original's with the fragment flag, its offset and the payload length as total |
| Fragmentation.OverheadPositive | dtn7-protocol/model/fragmentation-manager.cc:67-79 | the encoded primary block is never empty |
| Fragmentation.ZeroBudgetAsWritten | dtn7-protocol/model/fragmentation-manager.cc:80-88 | as written, a limit below 2 makes the budget 0, which the fragment count then divides by |
| Fragmentation.TinyLimitYieldsNothing | dtn7-protocol/model/fragmentation-manager.cc:80-88 | with the budget guarded, a limit below 2 yields no fragments |
| Fragmentation.FragmentPayloadSizes | dtn7-protocol/model/fragmentation-manager.cc:388-424 | `CalculateFragmentPayloadSize` gives the payload size of each fragment `FragmentBundle` makes |
| Fragmentation.GetOriginalBundleId | dtn7-protocol/model/fragmentation-manager.cc:368-386 | a fragment maps to its identifier with the fragment flag cleared and offset 0, whose key is its set's key; a non-fragment maps to the default identifier: `dtn:none`, the clock's time, sequence number 0 |
| Fragmentation.NonFragmentIdIsNone | dtn7-protocol/model/fragmentation-manager.cc:368-386 | the default identifier of a non-fragment never equals the original identifier of a fragment from a real source |
| Fragmentation.AddFragment | dtn7-protocol/model/fragmentation-manager.cc:161-217 | a non-fragment changes nothing; a fragment touches only its own set; a reassembled bundle is not a fragment and checks out |
| Fragmentation.DuplicateIgnored | dtn7-protocol/model/fragmentation-manager.cc:200-208 | a fragment whose offset its set already holds is dropped and yields nothing |
| Fragmentation.AddFragmentAppends | dtn7-protocol/model/fragmentation-manager.cc:200-217 | a fragment with a new offset is appended to its set, and reassembly is tried |
| Fragmentation.AddFragmentHolds | dtn7-protocol/model/fragmentation-manager.cc:161-198 | the first fragment fixes the set's original identifier, total length and expiry; later ones keep them; the set gains the fragment unless its offset is held |
| Fragmentation.CompleteStaysSilent | dtn7-protocol/model/fragmentation-manager.cc:222-226 | once a set is complete, no later fragment yields another bundle and the set stays complete |
| Fragmentation.TryReassemble | dtn7-protocol/model/fragmentation-manager.cc:219-310 | reassembly keeps the fragments (as a multiset), yields a bundle exactly when it marks the set complete, and the bundle's payload is the total length long |
| Fragmentation.CleanupExpiredFragments | dtn7-protocol/model/fragmentation-manager.cc:312-338 | exactly the sets with `now` past their (wrapped) expiry are removed, the others are kept unchanged, and the count is the number removed |
| Fragmentation.LongLifetimeSetDropped | dtn7-protocol/model/fragmentation-manager.cc:182-196 | a set started by a fragment whose expiry wraps below zero is removed by the next cleanup at any clock reading |
| Fragmentation.CleanupIdempotent | dtn7-protocol/model/fragmentation-manager.cc:312-338 | cleaning up again at the same time removes nothing |
| Fragmentation.CleanupLaterKeepsLess | dtn7-protocol/model/fragmentation-manager.cc:312-338 | a later cleanup keeps no set an earlier one removes |
| Fragmentation.SortByOffset | dtn7-protocol/model/fragmentation-manager.cc:228-232 | sorting by offset yields a sorted permutation of the fragments |
| Fragmentation.CoverageSound | dtn7-protocol/model/fragmentation-manager.cc:234-253 | a successful coverage scan reports coverage reaching every byte from its start up to what it returns |
| Fragmentation.GapUncovered | dtn7-protocol/model/fragmentation-manager.cc:234-253 | when the scan finds a gap, some byte below its end is covered by no fragment |
| Fragmentation.ReassemblesIffCovered | dtn7-protocol/model/fragmentation-manager.cc:219-260 | an incomplete set reassembles exactly when its fragments cover every byte of the total length |
| Fragmentation.Reassemble | dtn7-protocol/model/fragmentation-manager.cc:265-307 | the result has the fragment flag cleared, takes the first fragment's other fields, has its CRCs computed, and has the payload built by placing each fragment at its offset |
| Fragmentation.TryReassembleBuilds | dtn7-protocol/model/fragmentation-manager.cc:273-298 | a reassembled bundle is built from the sorted fragments placed at their offsets, within the total length |
| Fragmentation.OverlongFragmentAsWritten | dtn7-protocol/model/fragmentation-manager.cc:255-288 | as written, a set whose one fragment carries 2 bytes for a total of 1 passes the coverage check, so the copy would write past the buffer |
| Fragmentation.OverlaySplices | dtn7-protocol/model/fragmentation-manager.cc:273-284 | data that fits replaces exactly the bytes it covers |
| Fragmentation.TilesPlaceWhole | dtn7-protocol/model/fragmentation-manager.cc:273-288 | placing fragments that lie end to end into a zeroed buffer gives their payloads joined |
| Fragmentation.SortedUnique | dtn7-protocol/model/fragmentation-manager.cc:228-232 | a sorted permutation of fragments with distinct offsets is the ascending sequence itself |
| Fragmentation.WholeCovered | dtn7-protocol/model/fragmentation-manager.cc:234-260 | fragments that lie end to end from 0 to the total cover every byte reassembly needs |
| Fragmentation.PrefixLeavesGap | dtn7-protocol/model/fragmentation-manager.cc:234-260 | any proper prefix of such fragments leaves a byte uncovered |
| Fragmentation.FeedPrefix | dtn7-protocol/model/fragmentation-manager.cc:161-217 | after feeding the first `n` fragments of one bundle, the set holds exactly those fragments and is not complete until the last |
| Fragmentation.SplitTiles | dtn7-protocol/model/fragmentation-manager.cc:93-123 | the fragments of a split lie end to end from offset 0 to the payload length |
| Fragmentation.SplitIsOneUnit | dtn7-protocol/model/fragmentation-manager.cc:93-145 | the fragments of a split share one original identifier and total length, and lie end to end |
| Fragmentation.UnitReassembles | dtn7-protocol/model/fragmentation-manager.cc:161-310 | feeding such fragments in order yields nothing before the last one |
| Fragmentation.UnitLastYields | dtn7-protocol/model/fragmentation-manager.cc:219-310 | the last fragment yields a bundle rebuilt from all of them |
| Fragmentation.FragmentsReassemble | dtn7-protocol/model/fragmentation-manager.cc:26-310 | feeding every fragment of `FragmentBundle(b)` in order yields nothing until the last, which yields a non-fragment that checks out, has `b`'s identifier without fragment fields, and has `b`'s payload |
| AdminRecord.NewReport | dtn7/model/administrative-record.cc:63-72 | a new report has the given flags, reason, subject and source, and no times |
| AdminRecord.ReportFromCborValue | dtn7/model/administrative-record.cc:197-300 | a report is read exactly from a value of the report's shape, and what is read is what the wire form can carry |
| AdminRecord.Read | dtn7/model/administrative-record.cc:244-297 | the fields read from a report array are what the wire form can carry: flagged, non-zero, whole-second times only |
| AdminRecord.ReadId | dtn7/model/administrative-record.cc:244-260 | the subject read has a well-formed source taken from the source-node field, whole seconds, and offset 0 unless it is a fragment |
| AdminRecord.ReportFromCbor | dtn7/model/administrative-record.cc:197-242 | decoding succeeds exactly when the bytes decode to a value of the report's shape: record type 1, at least 7 fields, at least 4 identifier fields |
| AdminRecord.FromCbor | dtn7/model/administrative-record.cc:10-53 | an administrative record is read only from bytes that decode to a status report |
| AdminRecord.FromCborIsReportFromCbor | dtn7/model/administrative-record.cc:10-53 | reading an administrative record is reading a status report and wrapping it |
| AdminRecord.CustodySignalRejected | dtn7/model/administrative-record.cc:38-46 | a record of type 2, a custody signal, is never decoded |
| AdminRecord.ToCborValueWellFormed | dtn7/model/administrative-record.cc:80-158 | a report encodes as a well-formed CBOR value |
| AdminRecord.SlotDecodes | dtn7/model/administrative-record.cc:117-152 | a time slot holds the seconds only when the flag is set and the time is present, and reads back as what it holds |
| AdminRecord.ValueRoundTrip | dtn7/model/administrative-record.cc:80-300 | decoding a report's value gives the report as far as the wire form keeps it |
| AdminRecord.RoundTrip | dtn7/model/administrative-record.cc:80-300 | decoding a report's bytes gives back its flags, reason, subject and every flagged non-zero time, in whole seconds |
| AdminRecord.KeptIffFaithful | dtn7/model/administrative-record.cc:117-152 | the wire form loses nothing exactly for reports that keep only flagged, non-zero, whole-second times |
| AdminRecord.FaithfulRoundTrip | dtn7/model/administrative-record.cc:10-300 | such a report comes back unchanged, both as a report and as an administrative record |
| AdminRecord.CreateReceivedReport | dtn7/model/administrative-record.cc:302-314 | the report sets only the received flag, records the time, and gives no reason |
| AdminRecord.CreateForwardedReport | dtn7/model/administrative-record.cc:316-328 | the report sets only the forwarded flag, records the time, and gives no reason |
| AdminRecord.CreateDeliveredReport | dtn7/model/administrative-record.cc:330-342 | the report sets only the delivered flag, records the time, and gives no reason |
| AdminRecord.CreateDeletedReport | dtn7/model/administrative-record.cc:344-355 | the report sets only the deleted flag, records the time, and keeps the given reason |
| AdminRecord.CreatedReportsDecode | dtn7/model/administrative-record.cc:302-361 | every created report, encoded and decoded, still announces its one event about the same bundle |
| BundleStore.NewStore | dtn7/model/memory-bundle-store.cc:24-35 | a new store is empty and valid, with the given capacity |
| BundleStore.Push | dtn7/model/memory-bundle-store.cc:43-68 | a push succeeds exactly when there is a bundle and the store is below capacity (even for a bundle already present); a refused push changes nothing; a successful one stores the bundle under its identifier, overwriting |
| BundleStore.Get | dtn7/model/memory-bundle-store.cc:70-83 | a lookup finds a bundle exactly when its key is stored, and the bundle found has an identifier equal to the one asked for |
| BundleStore.Has | dtn7/model/memory-bundle-store.cc:85-91 | `Has` holds exactly when `Get` finds a bundle |
| BundleStore.Remove | dtn7/model/memory-bundle-store.cc:93-107 | removal reports whether the bundle was there, and drops only its entry |
| BundleStore.PushKeepsValid | dtn7/model/memory-bundle-store.cc:55-65 | a push never lets the count exceed the capacity |
| BundleStore.RemoveKeepsValid | dtn7/model/memory-bundle-store.cc:93-107 | removal keeps the store valid |
| BundleStore.GetAfterPush | dtn7/model/memory-bundle-store.cc:43-83 | after a successful push, the pushed identifier finds the bundle and every other identifier finds what it found before |
| BundleStore.GetAfterRemove | dtn7/model/memory-bundle-store.cc:70-107 | after removal the identifier is gone and every other identifier finds what it found before |
| BundleStore.RemoveUndoesPush | dtn7/model/memory-bundle-store.cc:43-107 | removing a bundle that a push has just added restores the store |
| BundleStore.GetAll | dtn7/model/memory-bundle-store.cc:109-123 | listing all bundles gives exactly the stored bundles, as many as the count |
| BundleStore.GetAllOnce | dtn7/model/memory-bundle-store.cc:109-123 | in a valid store no bundle is listed twice |
| BundleStore.Query | dtn7/model/memory-bundle-store.cc:125-141 | a query returns exactly the listed bundles that satisfy the predicate |
| BundleStore.QueryFiltersGetAll | dtn7/model/memory-bundle-store.cc:109-141 | a query is the full listing filtered by the predicate |
| BundleStore.ListsInOrder | dtn7/model/memory-bundle-store.cc:125-141 | a query that accepts everything lists the bundles in iteration order |
| BundleStore.Cleanup | dtn7/model/memory-bundle-store.cc:151-173 | exactly the bundles with `now` past creation plus lifetime (in wrapping `ns3::Time`) are removed, the rest are kept unchanged, and the count returned is the number removed |
| BundleStore.LongLifetimeDroppedAtOnce | dtn7/model/memory-bundle-store.cc:151-205 | a bundle created at the epoch with a lifetime of 9223372036855 ms counts as expired at every clock reading, so cleanup drops it |
| BundleStore.CleanupKeepsValid | dtn7/model/memory-bundle-store.cc:151-173 | cleanup keeps the store valid |
| BundleStore.CleanupLeavesNoneExpired | dtn7/model/memory-bundle-store.cc:151-204 | after cleanup no stored bundle is expired, and a second cleanup at the same time removes nothing |
| Routing.AddSentNode | dtn7/model/routing.cc:27-34 | afterwards the descriptor is sent to exactly the nodes it was sent to before plus the new one; the list grows by at most one |
| Routing.AddSentNodeIdempotent | dtn7/model/routing.cc:27-34 | adding a node twice is adding it once |
| Routing.CalculateExpirationTime | dtn7/model/routing.cc:185-195 | the expiry is the creation time plus the lifetime in milliseconds while that fits in an `int64_t`; it is always congruent to that sum modulo 2^64, and negative when the sum is below 2^64 but past `INT64_MAX` |
| Routing.UpdateBundleDescriptor | dtn7/model/routing.cc:160-183 | an existing descriptor is returned unchanged; otherwise a new one is stored with the destination as receiver, no sent nodes and the computed expiry |
| Routing.UpdateBundleDescriptorStable | dtn7/model/routing.cc:160-183 | the update keeps the router valid, and a second update changes nothing |
| Routing.MarkSent | dtn7/model/routing.cc:127-145 | recording a send changes only that bundle's descriptor, if it exists |
| Routing.StampPreviousNode | dtn7/model/routing.cc:114-124 | stamping keeps the primary block and identifier, and leaves the first previous-node block naming the local node |
| Routing.StampedNamesLocal | dtn7/model/routing.cc:114-124 | a stamped bundle's previous node reads back as the local node |
| Routing.StampIdempotent | dtn7/model/routing.cc:114-124 | stamping twice is stamping once |
| Routing.FirstReachable | dtn7/model/routing.cc:107-110 | the first sender that reports the endpoint reachable, or the number of senders when none does |
| Routing.SendBundle | dtn7/model/routing.cc:102-158 | the bundle is stamped when some sender is reachable; the result is true exactly when the first reachable sender sends it; success records the receiver and counts a send, failure only counts a failure |
| Routing.SendBundleCounts | dtn7/model/routing.cc:102-158 | every call adds one to exactly one of the sent and failed counters, and keeps the router valid |
| Routing.SentAfterSuccess | dtn7/model/routing.cc:127-145 | after a successful send the bundle's descriptor records the receiver |
| Routing.WriteBack | dtn7/model/routing.cc:114-124 | the stamped bundle replaces the stored one and nothing else changes |
| Routing.DescKeyOfBundle | dtn7/model/routing.cc:160-183 | descriptors and the store key a bundle the same way |
| Routing.ActivePeers | dtn7-protocol/model/epidemic-routing.cc:96-107 | the collected peers are active entries of the peer map |
| Routing.ActivePeersNone | dtn7-protocol/model/epidemic-routing.cc:96-107 | with no active peer nothing is collected |
| Routing.ActivePeersDistinct | dtn7-protocol/model/epidemic-routing.cc:96-107 | the active peers collected from a valid router are distinct nodes |
| Routing.OfferableNotLocal | dtn7-protocol/model/epidemic-routing.cc:125-142 | a peer the dispatch checks let through is never the local node |
| Routing.OfferableEarlier | dtn7-protocol/model/epidemic-routing.cc:137-142 | sent lists only grow, so a check that passes later passed at the start |
| Routing.SendStored | dtn7/model/routing.cc:102-158 | a send of a stored bundle records its outcome and writes the stamped bundle back to the store |
| Routing.SendStoredGrows | dtn7/model/routing.cc:127-151 | a send only adds the peer to the bundle's sent list and adds one to the sent or failed counter |
| Routing.SendStoredKeepsValid | dtn7/model/routing.cc:102-158 | a send keeps the router valid |
| Epidemic.NotifyNewBundle | dtn7-protocol/model/epidemic-routing.cc:34-53 | a refused push changes nothing; otherwise the bundle is stored, its descriptor is created or reused, and the source is recorded as sent |
| Epidemic.NotifyNewBundleKeepsValid | dtn7-protocol/model/epidemic-routing.cc:34-53 | a new bundle keeps the router valid |
| Epidemic.SourceNotOffered | dtn7-protocol/model/epidemic-routing.cc:45-49 | the node a bundle came from is never offered it afterwards |
| Epidemic.NotifyPeerAppeared | dtn7-protocol/model/epidemic-routing.cc:55-70 | the peer is upserted under its node ID and a dispatch follows |
| Epidemic.NotifyPeerDisappeared | dtn7-protocol/model/epidemic-routing.cc:72-84 | only that peer is removed; nothing else changes |
| Epidemic.PeerNotificationsKeepValid | dtn7-protocol/model/epidemic-routing.cc:55-84 | adding or removing a peer keeps the router valid |
| Epidemic.Offer | dtn7-protocol/model/epidemic-routing.cc:122-146 | offering one bundle sends at most once per peer, and every send is of that bundle |
| Epidemic.OfferAttempts | dtn7-protocol/model/epidemic-routing.cc:125-145 | every send in an offer went to a peer that passed the checks at the start |
| Epidemic.OfferRecords | dtn7-protocol/model/epidemic-routing.cc:145 | every successful send of an offer is recorded in the bundle's descriptor |
| Epidemic.OfferGains | dtn7-protocol/model/epidemic-routing.cc:137-145 | the descriptor gains only nodes of the peers offered to |
| Epidemic.OfferComplete | dtn7-protocol/model/epidemic-routing.cc:122-146 | every distinct peer that passes the checks is sent the bundle |
| Epidemic.EligibleEarlier | dtn7-protocol/model/epidemic-routing.cc:116-142 | a bundle and peer that pass the checks later passed them at the start |
| Epidemic.DispatchOneGrows | dtn7-protocol/model/epidemic-routing.cc:116-146 | one bundle's dispatch only grows sent lists, and each send adds one to the sent or failed counter |
| Epidemic.DispatchOneKeepsStore | dtn7-protocol/model/epidemic-routing.cc:116-146 | one bundle's dispatch keeps the router valid and the stored bundles' keys and primary blocks |
| Epidemic.DispatchOneAttempts | dtn7-protocol/model/epidemic-routing.cc:116-146 | every send of one bundle's dispatch went to an active peer that passed the checks |
| Epidemic.DispatchOneRecords | dtn7-protocol/model/epidemic-routing.cc:145 | every successful send of one bundle's dispatch is recorded in its descriptor |
| Epidemic.DispatchOneComplete | dtn7-protocol/model/epidemic-routing.cc:116-146 | every active peer that passes the checks for the bundle is sent it |
| Epidemic.DispatchEachKeepsStore | dtn7-protocol/model/epidemic-routing.cc:109-147 | the walk over the stored bundles keeps the router valid and the store's contents |
| Epidemic.DispatchEachGrows | dtn7-protocol/model/epidemic-routing.cc:109-147 | the walk only grows sent lists, and counts each send once |
| Epidemic.DispatchEachAttempts | dtn7-protocol/model/epidemic-routing.cc:109-147 | every send of the walk is justified by the router at its start |
| Epidemic.DispatchEachRecords | dtn7-protocol/model/epidemic-routing.cc:109-147 | the walk keeps the set of descriptors and records every successful send |
| Epidemic.DispatchEachComplete | dtn7-protocol/model/epidemic-routing.cc:109-147 | every pair of a listed bundle and an active peer that passes the checks is tried |
| Epidemic.DispatchBundles | dtn7-protocol/model/epidemic-routing.cc:86-148 | dispatch keeps the local node, the store's keys and the peers |
| Epidemic.NotifyNewBundleTracked | dtn7-protocol/model/epidemic-routing.cc:34-53 | after a new bundle, every stored bundle still has a descriptor |
| Epidemic.AllowedFromJustified | dtn7-protocol/model/epidemic-routing.cc:96-145 | a justified send goes to an active peer that passed the checks, and not to the local node |
| Epidemic.DispatchSafe | dtn7-protocol/model/epidemic-routing.cc:86-148 | every send of a dispatch is of a stored, unexpired bundle not addressed to the local node, to an active peer that is not the local node and has not had it |
| Epidemic.DispatchComplete | dtn7-protocol/model/epidemic-routing.cc:86-148 | there is no copy limit: every stored bundle and active peer that pass the checks get a send |
| Epidemic.DispatchRecords | dtn7-protocol/model/epidemic-routing.cc:86-148 | dispatch keeps the router valid, every stored bundle tracked, and every successful send recorded |
| Epidemic.NotResent | dtn7-protocol/model/epidemic-routing.cc:137-142 | an allowed send never goes to a node the bundle was already sent to |
| Epidemic.DispatchSkipsRecorded | dtn7-protocol/model/epidemic-routing.cc:137-145 | a dispatch never repeats a successful send the descriptors record |
| Epidemic.RecordedAfterDispatch | dtn7-protocol/model/epidemic-routing.cc:86-148 | after a dispatch, whatever the peers become, the successful sends stay recorded |
| Epidemic.NeverTwice | dtn7-protocol/model/epidemic-routing.cc:86-148 | a second dispatch, with any peers, time and senders, never repeats a successful send of the first |
| Epidemic.NothingToSend | dtn7-protocol/model/epidemic-routing.cc:86-148 | with no stored bundle or no active peer a dispatch sends nothing and changes nothing |
| Epidemic.NoPeersNoSends | dtn7-protocol/model/epidemic-routing.cc:109-147 | with no active peers the walk sends nothing and changes nothing |
| Epidemic.NewPeerOffered | dtn7-protocol/model/epidemic-routing.cc:55-70 | a new active peer is sent every stored bundle that passes the checks for it |
| Spray.Create | dtn7/model/spray-routing.cc:22-35 | a new router has valid counts, the given maximum, and one copy for every bundle |
| Spray.GetCopyCount | dtn7/model/spray-routing.cc:235-248 | a bundle without a recorded count holds one copy; a valid router's counts lie between 1 and the maximum |
| Spray.SetCopyCount | dtn7/model/spray-routing.cc:226-233 | only the one count changes |
| Spray.DecreaseCopyCount | dtn7/model/spray-routing.cc:250-265 | a count above 1 drops by one and is returned; otherwise 1 is returned and nothing changes |
| Spray.InitialCopies | dtn7/model/spray-routing.cc:61-76 | a bundle from the local node gets the maximum; any other gets half of it, but at least 1 |
| Spray.NotifyNewBundle | dtn7/model/spray-routing.cc:42-79 | a refused push changes nothing; otherwise the epidemic bookkeeping is done and only the new bundle's count is set, to its initial copies |
| Spray.NotifyNewBundleKeepsValid | dtn7/model/spray-routing.cc:42-79 | a new bundle keeps the router valid |
| Spray.NotifyPeerDisappeared | dtn7/model/spray-routing.cc:98-110 | only that peer is forgotten; the counts are kept |
| Spray.NotifyPeerDisappearedKeepsValid | dtn7/model/spray-routing.cc:98-110 | removing a peer keeps the router valid |
| Spray.SprayCount | dtn7/model/spray-routing.cc:216-220 | the corrected bookkeeping of one spray send, the corrected half of a finding, not what the code does: a failed send puts the count back as it was; a successful one leaves `newCount - newCount/2` copies, newCount being the count less one; no other count changes, and a count never drops below 1 |
| Spray.SprayCountAsWritten | dtn7/model/spray-routing.cc:193-220 | the bookkeeping of one spray send as written, which dispatch uses: success is as in the corrected version; a failed send leaves the decreased count (one less, but never below 1); no other count changes, and valid counts stay valid |
| Spray.FailedSprayLosesCopy | dtn7/model/spray-routing.cc:216-220 | as written, a failed send costs a copy; corrected, it costs none |
| Spray.SprayStepSends | dtn7/model/spray-routing.cc:205 | the router side of a spray send is the common stored send |
| Spray.WaitPeer | dtn7/model/spray-routing.cc:151-168 | in the wait phase a bundle goes only to a peer that is its destination, and the counts do not change |
| Spray.SprayToCopies | dtn7/model/spray-routing.cc:169-222 | with failures costing a copy as written, the spray phase changes only this bundle's count and keeps it at least 1; starting above 1, its successful sends plus what remains never exceed the starting count; a count worn down to 1 by failures still allows one last success |
| Spray.DispatchOne | dtn7/model/spray-routing.cc:140-222 | one bundle's dispatch keeps the maximum, the local node and the peers |
| Spray.ExpiredSkipped | dtn7/model/spray-routing.cc:140-147 | an expired bundle is skipped: nothing is sent and nothing changes |
| Spray.WaitingGoesToDestination | dtn7/model/spray-routing.cc:149-168 | with one copy left, the counts stay and every send goes to the bundle's destination |
| Spray.SprayingBudget | dtn7/model/spray-routing.cc:169-222 | with more than one copy, and failures costing a copy as written, the count stays at least 1 and fewer successful sends happen than there were copies |
| Spray.DispatchOneCopies | dtn7/model/spray-routing.cc:140-222 | one bundle's dispatch, failure branch as written, grows no count and keeps valid counts valid |
| Spray.DispatchEachCopies | dtn7/model/spray-routing.cc:112-224 | over the whole walk no count grows |
| Spray.DispatchCopies | dtn7/model/spray-routing.cc:112-224 | a dispatch never increases any copy count and keeps valid counts valid |
| Spray.DispatchOneFresh | dtn7/model/spray-routing.cc:151-192 | no send goes to a node the bundle's descriptor already records; spray-phase sends never go to the local node |
| Spray.DispatchKeepsValid | dtn7/model/spray-routing.cc:112-224 | a dispatch keeps the router valid |
| Spray.NotifyPeerAppeared | dtn7/model/spray-routing.cc:81-96 | the peer is upserted under its node ID and a dispatch follows |

## Left out

- The convergence layers (TCP and UDP), discovery beacons, the node
  application, the helpers and the example. These are socket I/O,
  scheduler events and object wiring. Senders are an oracle with
  `isReachable` and `send`.
- The clock. `GetDtnNow`, the clock-reading `DtnTime` constructors and
  `ToString` use wall-clock time and doubles. `now` and every timestamp are
  parameters.
- The ns-3 `Buffer` mechanics beyond what `Cbor::Encode` shows: bytes are
  `seq<uint8>`. The encoder's buffer keeps its size and write offsets; the
  bytes it holds before the writes are a parameter. The placeholder
  `GetFloat` is not modelled.
- String formatting. `GetName`, `GetStats`, the `ToString` methods and trace
  callbacks are not modelled.
- Counters other than the sent and failed counts.
- Concrete `std::hash` values. `Hash` takes the string and integer hash
  functions as parameters.
- The `std::regex` engine. It is replaced by explicit predicates on strings.
- Mutexes. All operations are modelled sequentially.
  - Both dispatchers hold `m_bundlesMutex` while `SendBundle` locks it again
    (dtn7-protocol/model/epidemic-routing.cc:115,
    dtn7/model/spray-routing.cc:141, dtn7/model/routing.cc:133). That would
    self-deadlock with a non-recursive mutex.
  - The model assumes the sends happen.
- The second copy of the store in dtn7-protocol/model/memory-bundle-store.cc,
  which lacks the capacity check. The model follows the dtn7 store.
- The base `DispatchBundles`. It does nothing and only the two routers are
  modelled.
- Overflow of `size_t` and of the 32-bit copy count. Capacities, offsets and
  counts are unbounded naturals, constrained below 2^64 (or 2^32) where the
  proofs need it.
- Ordering inside spray dispatch. Spray routing's wait and spray phases are
  modelled per bundle, in store iteration order, as the code runs them,
  including the failure branch that keeps the decreased count. The
  `Attempt` log is a modelling device recording the sends in that order.
- Bundle.Fragment: the code adds the original's own replicated block objects
  to each fragment (`Ptr` sharing). Its renumbering of a number-0 block and
  its CRC computation therefore also change those blocks in the original
  bundle. The model leaves the original unchanged and gives each fragment its
  own copy. The fragments come out the same, because every fragment computes
  the same number and CRC for a shared block.
- Bundle.MakeFragment: the same block sharing with the original bundle is not
  modelled.
- Fragmentation.Reassemble: the reassembled bundle shares the first
  fragment's non-payload block objects. Its renumbering and CRC computation
  therefore also change those blocks in the stored first fragment. The model
  leaves the stored fragment unchanged.
- Spray.NotifyNewBundle: the store push and descriptor bookkeeping are shared
  with epidemic routing's `NotifyNewBundle`, which the code repeats line for
  line.
- Cbor.DecodeItem: the decoder does not check that map keys are sorted or
  unique, and neither does the code.
- Cbor.TextToBytes: a `std::string` holds bytes. Characters stand for bytes,
  so the text round trips require every character below 256.
- Endpoint.CborRoundTrip: stated for URIs whose characters are bytes, for the
  same reason.
- PrimaryBlock.CborRoundTrip: stated for blocks whose creation time is whole
  seconds and whose lifetime is whole milliseconds, because the encoding keeps
  only those.
- AdminRecord.RoundTrip: the encoding keeps only the seconds of each time and
  only times whose flag is set and that are non-zero. The round trip is
  stated up to that loss (`Kept`), and exactly for reports that lose nothing.
- CanonicalBlock.GetAge: stated for the empty case and through the round trip
  with `SetAge`. Data that is not an unsigned integer reads as 0 via the CBOR
  getter.
- DtnTime.FromTime: the code takes the whole seconds from the `double`
  `GetSeconds()`. The model divides exactly. The two agree below about
  9 x 10^6 seconds (2^53 nanoseconds). Beyond that, a time just short of a
  whole second can round up: 10^18 - 1 ns gives 10^9 seconds.
- DtnTime.FromTime: negative times are not a clock reading, and the code's
  conversion of a negative `double` to `uint64_t` is undefined. The domain is
  0 to `INT64_MAX`.
- DtnTime.FromTimeToTime: holds for the exact division, so it inherits the
  `double` rounding gap of `FromTime`.
- DtnTime.ToTime: `Seconds(uint64_t)` goes through a `double` product. It is
  exact below about 4.6 x 10^9 seconds. Beyond that it is rounded, and
  converting a product past the `int64_t` range is undefined. The model
  takes the exact instant wrapped to 64 bits.
- BoundedInts.Int64Of: signed overflow is undefined in C++. The model takes
  the two's-complement wrap that ns-3 builds produce.
- Fragmentation.GetOriginalBundleId: a null bundle pointer is not modelled.
  The default identifier's timestamp reads the DTN clock, so it is a
  parameter.
- Routing.SendBundle: the sender's effect on the network is not modelled.
  Only its boolean result is.

## Findings

| source | as written | input that shows it | evidently intended | confidence | as-written member | corrected member |
|---|---|---|---|---|---|---|
| dtn7-protocol/model/cbor.cc:510-579 | `Encode` returns its whole 1024-byte buffer and writes the head of an array, map or tag but never the encodings of its children | `[1]` and `[2]` both encode as 0x81 followed by 1023 unwritten bytes | the head followed by the children's encodings, as the comments at lines 553-554 say | high (not executed) | Cbor.EncodeAsWrittenLosesElements | Cbor.EncodeInjective |
| dtn7-protocol/model/cbor.cc:532-545 | the head is written through `EncodeUnsigned`'s own iterator, then the string content through `it`, both from offset 0 | h'AB' encodes as 0xAB followed by unwritten bytes; the head 0x41 is overwritten | the head followed by the content | high (not executed) | Cbor.EncodeAsWrittenByteString | Cbor.DecodeOfEncode |
| dtn7-protocol/model/cbor.cc:622-645 | `Decode` reads only major types 0 and 1 | the empty array 0x80 is refused | a decoder for every major type, inverting `Encode` | high (not executed) | Cbor.DecodeAsWrittenRejectsArrays | Cbor.DecodeOfEncode |
| dtn7-protocol/model/cbor.cc:633-641 | a negative integer is `-1 - (int64_t)n`, which wraps for `n >= 2^63` | 0x3B followed by eight 0xFF decodes as the unsigned 0 | refuse arguments outside the `int64_t` range | high (not executed) | Cbor.DecodeAsWrittenWrapsNegative | Cbor.DecodeOfEncode |
| dtn7-protocol/model/crc.cc:33-57 | the right-shifting CRC-32 loop is given the Castagnoli polynomial in normal form, 0x1EDC6F41 | "123456789" gives 0xF28417BE, not the CRC-32C check value 0xE3069283 | CRC-32C as the comment says, with the reflected polynomial 0x82F63B78; the blocks in the model keep the code's loop, since the code is well defined | high (not executed) | CrcCheckValues.CalculateCRC32AsWrittenIsNotCastagnoli | CrcCheckValues.CalculateCRC32CheckValue |
| dtn7-protocol/model/fragmentation-manager.cc:80-88 | with a limit at most the overhead the budget is `max / 2`, and the fragment count divides by it | `maxFragmentSize` 1 gives budget 0, a division by zero | refuse to fragment when the budget is 0 | high (not executed) | Fragmentation.ZeroBudgetAsWritten | Fragmentation.TinyLimitYieldsNothing |
| dtn7-protocol/model/fragmentation-manager.cc:255-288 | reassembly checks only that coverage reaches the total, then copies each payload to its offset in a buffer of the total length | one fragment at offset 0 carrying 2 bytes with total length 1 passes, and the copy writes past the buffer | copy only within the total length | medium (not executed) | Fragmentation.OverlongFragmentAsWritten | Fragmentation.TryReassemble |
| dtn7-protocol/model/bundle.cc:351-354 | the loop advances its offset by `maxFragmentSize / 2` | `maxFragmentSize` 1 and a non-empty payload loop forever | refuse to fragment when the step is 0 | high (not executed) | Bundle.FragmentAsWrittenNeverEnds | Bundle.Fragment |
| dtn7/model/spray-routing.cc:216-220 | after a failed send the comment says the count is restored, but it is set to the already decreased count | a bundle with 4 copies and a failed send keeps 3 | restore the count the bundle had before the attempt; dispatch in the model keeps the code's branch, since the code is well defined | medium (not executed) | Spray.FailedSprayLosesCopy | Spray.SprayCount |
