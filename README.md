# pallas-codec wrapper types, modelled in Dafny

This project models `pallas-codec/src/utils.rs`, the utility layer of the Pallas
CBOR codec. That layer is a set of small wrapper types built on the minicbor engine.
Each wrapper keeps some detail of the wire form that a plain Rust type would lose, or
checks a refinement:

- whether a map or an array had a definite count or an indefinite length
  (`KeyValuePairs`, `NonEmptyKeyValuePairs`, `MaybeIndefArray`);
- the order of a map's entries (`OrderPreservingProperties`);
- the optional set tag 258 (`Set`, `NonEmptySet`);
- the width of an unsigned integer's head (`AnyUInt`);
- the exact bytes a value was decoded from (`KeepRaw`, `AnyCbor`);
- the difference between `null` and `undefined` (`Nullable`);
- tag envelopes (`CborWrap`, `TagWrap`), the optional-value patterns `ZeroOrOneArray` and
  `EmptyMap`, the nonzero integers `PositiveCoin` and `NonZeroInt`, and `Bytes` with its
  hex text form.

## Layout

- `wrappers.dfy` (`Wrappers`): `Option` and `Result`.
- `cbor.dfy` (`Cbor`): a byte-level stand-in for the parts of minicbor the wrappers
  call. It follows RFC 8949:
  - heads, with the major type in the top 3 bits and the argument inline or in 1, 2, 4
    or 8 big-endian bytes (section 3);
  - indefinite lengths ended by the break byte `FF` (section 3.2.2);
  - tags (section 3.4) and tag 24 (section 3.4.5.1);
  - `null` `F6` and `undefined` `F7` (section 3.3).

  A decoder is a function from a buffer and a position to a value and the next
  position. An encoder is a function from a value to its bytes. `Sound(enc, dec)` says
  `dec` reads back what `enc` writes at any position. `Skips(enc)` says `Skip` steps over
  it. `Encoder` is the writer: a class whose `written` field the encoding methods append to.
- One module per group of wrappers: `pairs.dfy`, `nonempty_pairs.dfy`, `arrays.dfy`,
  `properties.dfy`, `sets.dfy`, `envelopes.dfy`, `optional.dfy`, `nullables.dfy`,
  `integers.dfy`, `raw.dfy`, `bytestrings.dfy`.

Each wrapper has these parts:

- a `Decode`: a pure function, except for `KeepRaw`, where it is a method that builds
  the object and records the decoded span of the input;
- an `Encoding`: a pure function giving the bytes written. `AnyCbor` has none: it writes
  the bytes it holds;
- an `Encode` method, for wrappers whose Rust encoder loops over items or calls
  `write_all`. `Encode` is proved to append exactly `Encoding`, or, for `AnyCbor`,
  exactly the bytes it holds;
- `DecodeEncoding`-style lemmas. These prove that decoding what `Encoding` writes gives
  back the same value, framing included, under `Sound` element codecs.

Element types are parameters. A Rust `x.len() as u64` is modelled as `AsU64`, which is
the length modulo 2^64. Round trips therefore assume a buffer shorter than 2^64 bytes.

## Where the code and its own doc comments disagree

The model follows the code in each case.

- `AnyUInt`'s doc comment (`utils.rs:885`) says it preserves the original integer
  length. The decoder actually chooses by value between `MajorByte` and `U8`, for every
  head up to a one-byte argument (`utils.rs:904-906`). See Findings.
- `PositiveCoin`'s comment (`utils.rs:999`) gives the range `1 .. 18446744073709551615`.
  Its decoder is derived transparently and accepts 0. Only `try_from` refuses 0. See
  Findings.
- `EmptyMap`'s doc comment (`utils.rs:624`) calls it "An empty map". Its decoder calls
  `skip`, which accepts any single data item (`EmptyMapAcceptsAnyItem`,
  `EmptyMapExamples`).

## Model

| member | source | states |
|---|---|---|
| Pairs.KeyValuePairs.FromVec | pallas-codec/src/utils.rs:73-104 | building from a `Vec` or an iterator always gives `Def`, holding exactly the entries given |
| Pairs.ConversionRoundTrip | pallas-codec/src/utils.rs:63-104 | `to_vec` of `from` gives the entries back; `from(to_vec(kvp)) == kvp` exactly when `kvp` is `Def`, because an `Indef` framing is lost |
| Pairs.KeyValuePairs.Decode | pallas-codec/src/utils.rs:143-162 | decoding succeeds exactly when the map's entries can be read, and then holds exactly those entries in wire order and ends where they end, for heads of any width; a decoded value is `Indef` if and only if the map's initial byte is the indefinite-length map head `BF` |
| Pairs.WriteEntries | pallas-codec/src/utils.rs:178-189 | the encoder loop appends, for each entry in order, the key's encoding and then the value's |
| Pairs.KeyValuePairs.Encode | pallas-codec/src/utils.rs:164-197 | appends a count head, or the indefinite head, then the entries and, for `Indef`, a break: exactly `Encoding` |
| Pairs.KeyValuePairs.ToVec | pallas-codec/src/utils.rs:68-70 | the entries in order, for either framing; `ConversionRoundTrip` relates it to `From` |
| Pairs.KeyValuePairs.Encoding | pallas-codec/src/utils.rs:164-197 | the bytes `Encode` writes: a count head or the head `BF`, each key followed by its value, and for `Indef` a break; `DecodeEncoding` reads them back |
| Pairs.DecodeEncoding | pallas-codec/src/utils.rs:143-197 | decoding what either framing writes gives back the same entries, in the same order, and the same framing |
| NonEmptyPairs.NonEmptyKeyValuePairs.FromVec | pallas-codec/src/utils.rs:241-247 | `from_vec` is `None` exactly for an empty list; otherwise it is `Def` holding the list |
| NonEmptyPairs.NonEmptyKeyValuePairs.TryFromVec | pallas-codec/src/utils.rs:263-277 | an empty list is refused with the fixed message; otherwise the result is `Def` holding the list |
| NonEmptyPairs.NonEmptyKeyValuePairs.TryFromKeyValuePairs | pallas-codec/src/utils.rs:279-304 | no entries gives the fixed message; otherwise the entries are kept and so is the `Def`/`Indef` framing |
| NonEmptyPairs.NonEmptyKeyValuePairs.AsKeyValuePairs | pallas-codec/src/utils.rs:207-214 | the same entries and framing as the `KeyValuePairs` whose wire format the type shares |
| NonEmptyPairs.NonEmptyKeyValuePairs.Decode | pallas-codec/src/utils.rs:321-346 | succeeds exactly when `KeyValuePairs` decoding does and agrees with it, so it is `Indef` if and only if the head is `BF`; there is no emptiness check |
| NonEmptyPairs.DecodeAcceptsEmptyMap | pallas-codec/src/utils.rs:332-336 | with the emptiness check commented out, the empty map `A0` decodes to an empty `Def` |
| NonEmptyPairs.NonEmptyKeyValuePairs.Encode | pallas-codec/src/utils.rs:348-381 | appends `map(len)` and the entries for `Def`, or the indefinite head, the entries and a break for `Indef` |
| NonEmptyPairs.NonEmptyKeyValuePairs.ToVec | pallas-codec/src/utils.rs:237-239 | the entries in order, for either framing |
| NonEmptyPairs.NonEmptyKeyValuePairs.Encoding | pallas-codec/src/utils.rs:348-381 | the bytes `Encode` writes, framed as for `KeyValuePairs`; `DecodeEncoding` reads them back |
| NonEmptyPairs.DecodeEncoding | pallas-codec/src/utils.rs:321-381 | decoding what either framing writes gives back the same value |
| Arrays.MaybeIndefArray.Decode | pallas-codec/src/utils.rs:416-431 | succeeds exactly when the array can be read as a `Vec`, of either length form; `Indef` if and only if the head is `9F`; the items are the array's items as a `Vec` decodes them, in wire order, ending where they end |
| Arrays.MaybeIndefArray.Encode | pallas-codec/src/utils.rs:433-463 | `Def` appends the `Vec` encoding; `Indef` appends `9F`, each item in order, then `FF` |
| Arrays.MaybeIndefArray.ToVec | pallas-codec/src/utils.rs:391-393 | the items in order, for either framing |
| Arrays.MaybeIndefArray.Encoding | pallas-codec/src/utils.rs:433-463 | the bytes `Encode` writes: the `Vec` encoding, or `9F`, the items and `FF`; `DecodeEncoding` reads them back |
| Arrays.DecodeEncoding | pallas-codec/src/utils.rs:416-463 | decoding what either framing writes gives back the same items and framing |
| Cbor.Encoder.WriteItems | pallas-codec/src/utils.rs:453-455 | the loop that encodes each item in turn appends `ItemsBytes`, the items' encodings in order |
| Properties.OrderPreservingProperties.Decode | pallas-codec/src/utils.rs:491-502 | decoding succeeds exactly when the map head and then as many properties as its count (0 for an indefinite head) can be read, and holds exactly those properties in wire order, for heads of any width; an indefinite map gives no properties and stops after its first byte |
| Properties.OrderPreservingProperties.Encode | pallas-codec/src/utils.rs:504-520 | appends `map(len)`, then each property in order |
| Properties.OrderPreservingProperties.Encoding | pallas-codec/src/utils.rs:504-520 | the bytes `Encode` writes: `map(len)` and each property in order; `DecodeEncoding` reads them back |
| Properties.DecodeEncoding | pallas-codec/src/utils.rs:491-520 | decoding what `Encode` writes gives back the properties, in the order written |
| Properties.IndefiniteMapReadAsEmpty | pallas-codec/src/utils.rs:496 | after any indefinite map head, the as-written decoder returns no properties and position just after the head |
| Properties.IndefiniteMapExample | pallas-codec/src/utils.rs:496 | `BF 00 01 FF` decodes to no properties with three bytes left unread |
| Properties.OrderPreservingProperties.DecodeAnyLength | pallas-codec/src/utils.rs:491-502 | a corrected decoder; on every input that does not start with `BF` it is the same as the as-written decoder |
| Properties.DecodeAnyLengthIndefinite | pallas-codec/src/utils.rs:491-520 | the corrected decoder reads every property of an indefinite map, and its break |
| Envelopes.CborWrap.Decode | pallas-codec/src/utils.rs:533-544 | succeeds exactly when a tag, a definite byte string and the inner value at the start of its contents can be read; the value is that inner value and the position is after the byte string |
| Envelopes.CborWrapIgnoresTag | pallas-codec/src/utils.rs:533-544 | a byte string holding the inner encoding decodes to the inner value whatever tag number is in front of it |
| Envelopes.CborWrap.Encoding | pallas-codec/src/utils.rs:546-564 | the tag written is 24, the bytes `D8 18`, followed by the inner encoding as one definite byte string |
| Envelopes.CborWrapDecodeEncoding | pallas-codec/src/utils.rs:533-564 | tag 24 with a byte string of the inner encoding decodes back to the same value |
| Envelopes.TagWrap.Decode | pallas-codec/src/utils.rs:589-598 | succeeds exactly when a tag and then the inner value can be read, and gives that inner value |
| Envelopes.TagWrap.Encoding | pallas-codec/src/utils.rs:600-614 | the head of tag `T`, then the inner encoding; `TagWrapIgnoresTag` reads it back |
| Envelopes.TagWrapIgnoresTag | pallas-codec/src/utils.rs:589-614 | what `Encoding` writes with any tag number decodes back to the same inner value |
| Optional.EmptyMap.Decode | pallas-codec/src/utils.rs:630-638 | succeeds exactly when `skip` can step over one item, and ends where `skip` ends |
| Optional.EmptyMap.Encoding | pallas-codec/src/utils.rs:640-650 | always the single byte `A0` |
| Optional.EmptyMapAcceptsAnyItem | pallas-codec/src/utils.rs:635 | any item of an encoder that `skip` steps over decodes as an `EmptyMap`, whatever its type |
| Optional.EmptyMapExamples | pallas-codec/src/utils.rs:635 | the integer `01` and the array `82 01 02` both decode as an `EmptyMap` |
| Optional.EmptyMapDecodeEncoding | pallas-codec/src/utils.rs:630-650 | `A0` decodes back to `EmptyMap`, consuming one byte |
| Optional.ZeroOrOneArray.Decode | pallas-codec/src/utils.rs:668-686 | a definite array head of length 0 always gives `None`, ending after the head; one of length 1 succeeds exactly when the item after the head decodes, and gives that item and ends where it ends; any other length, and the indefinite length, fails |
| Optional.ZeroOrOneArray.Encoding | pallas-codec/src/utils.rs:689-709 | for `Some` the byte `81` followed by exactly the item encoding; for `None` the single byte `80` |
| Optional.ZeroOrOneDecodeEncoding | pallas-codec/src/utils.rs:668-709 | `array(0)`, and `array(1)` followed by an item, decode back to `None` and to that item |
| Optional.ZeroOrOneRefusesIndefinite | pallas-codec/src/utils.rs:681-684 | an array with the indefinite-length head is refused, whatever follows |
| Sets.Set.FromKeepRaw | pallas-codec/src/utils.rs:738-743 | the items are the `KeepRaw` values unwrapped, in order |
| Sets.DecodeTaggedArray | pallas-codec/src/utils.rs:757-769 | decoding past the end fails; an item that is not a tag is read as a plain array; after a tag head, tag 258 is followed by the array and any other tag number is an "unrecognised tag" error carrying that number |
| Sets.EncodeTaggedArray | pallas-codec/src/utils.rs:781-782 | the bytes `D9 01 02`, tag 258, followed by exactly the items as a definite-length array |
| Sets.Set.ToVec | pallas-codec/src/utils.rs:719-721 | the items, in order |
| Sets.Set.Encoding | pallas-codec/src/utils.rs:772-786 | the tagged array of the items; `SetDecodeEncoding` reads it back |
| Sets.DecodeTagged | pallas-codec/src/utils.rs:754-786 | tag 258 followed by a definite-length array decodes to the array's items, ending after the array |
| Sets.DecodeTaggedIndefinite | pallas-codec/src/utils.rs:754-786 | tag 258 followed by an indefinite-length array decodes to the array's items, ending after its break |
| Sets.DecodeUntagged | pallas-codec/src/utils.rs:754-770 | an array without a tag, of either length form, decodes to its items and ends right after the array |
| Sets.Set.Decode | pallas-codec/src/utils.rs:754-770 | succeeds exactly when the optionally tagged array can be read, giving its items and end, and otherwise fails with the same error |
| Sets.NonEmptySet.Decode | pallas-codec/src/utils.rs:845-867 | the same reading as `Set`'s decoder: it succeeds and fails on the same input, with the same items, end and error, and never checks that there is an item |
| Sets.DecodeOtherTag | pallas-codec/src/utils.rs:760-765 | any tag other than 258 is refused with an "unrecognised tag" error carrying the number found |
| Sets.SetDecodeEncoding | pallas-codec/src/utils.rs:754-786 | what `Set` encoding writes, tag 258 and then the array, decodes back to the same set |
| Sets.NonEmptySet.FromVec | pallas-codec/src/utils.rs:800-807 | `from_vec` is `None` exactly for an empty list; otherwise it holds the list |
| Sets.NonEmptySet.TryFromVec | pallas-codec/src/utils.rs:817-827 | an empty list is handed back as the error; otherwise it holds the list |
| Sets.NonEmptySet.FromKeepRaw | pallas-codec/src/utils.rs:829-834 | the items are the `KeepRaw` values unwrapped, in order |
| Sets.NonEmptySet.ToVec | pallas-codec/src/utils.rs:796-798 | the items, in order |
| Sets.NonEmptySet.Encoding | pallas-codec/src/utils.rs:870-883 | the tagged array of the items, as for `Set`; `NonEmptySetDecodeEncoding` reads it back |
| Sets.NonEmptySetDecodeEncoding | pallas-codec/src/utils.rs:845-883 | what `NonEmptySet` encoding writes decodes back to the same set |
| Sets.NonEmptySetAcceptsEmpty | pallas-codec/src/utils.rs:861-863 | with the emptiness check commented out, a tagged empty array `D9 01 02 80` decodes to an empty `NonEmptySet` |
| Integers.AnyUInt.Decode | pallas-codec/src/utils.rs:895-918 | succeeds exactly when `u64` decoding does, and the numeric value and end position are what it gives; `MajorByte` holds only values up to 23 and `U8` only values from 24; in the one-byte class the result is `MajorByte` or `U8` if and only if the head's additional information is at most 24 |
| Integers.AnyUInt.Encode | pallas-codec/src/utils.rs:920-978 | `MajorByte(x)` appends the byte `x`; the others append 24, 25, 26 or 27 and then the value in 1, 2, 4 or 8 big-endian bytes |
| Integers.AnyUInt.ToU64 | pallas-codec/src/utils.rs:981-990 | each variant widened to `u64` without change; `Decode` is tied to `u64` decoding through it |
| Integers.AnyUInt.Encoding | pallas-codec/src/utils.rs:920-978 | the bytes `Encode` writes; `EncodingIsHead` shows they are RFC 8949 heads |
| Integers.EncodingIsHead | pallas-codec/src/utils.rs:920-978 | for a `MajorByte` below 24, and for every other variant, the bytes written are the RFC 8949 head of that width |
| Integers.DecodeEncodingByValue | pallas-codec/src/utils.rs:895-978 | a value decodes back from its own encoding if and only if the decoder could have produced it: a `MajorByte` below 24 or a `U8` from 24 up |
| Integers.WidthLostExample | pallas-codec/src/utils.rs:904-906 | `18 05` decodes to `MajorByte(5)`, which is written `05`; the width-keeping decoder gives `U8(5)` |
| Integers.OneByteHeadReadAsMajorByte | pallas-codec/src/utils.rs:895-918 | every explicit one-byte head `18 xx` with `xx` below 24 decodes as written to `MajorByte(xx)`, and by head to `U8(xx)` |
| Integers.AnyUInt.DecodeByHead | pallas-codec/src/utils.rs:885-918 | a corrected decoder, classified by the head's additional information: the value re-encodes to exactly the bytes it was read from |
| Integers.DecodeByHeadEncoding | pallas-codec/src/utils.rs:885-978 | the corrected decoder reads every well-formed variant back from its own encoding |
| Integers.PositiveCoin.TryFrom | pallas-codec/src/utils.rs:1007-1023 | 0 is refused and handed back; every other value is kept and `u64::from` returns it |
| Integers.PositiveCoin.ToU64 | pallas-codec/src/utils.rs:1019-1023 | `u64::from`: the value held |
| Integers.PositiveCoin.Encoding | pallas-codec/src/utils.rs:1000-1005 | the derived transparent encoding: the `u64` head of the value; `PositiveCoinDecodeEncoding` reads it back |
| Integers.PositiveCoin.Decode | pallas-codec/src/utils.rs:1001-1005 | the derived transparent decoding succeeds exactly when `u64` decoding does, with the same value and position |
| Integers.PositiveCoinAcceptsZero | pallas-codec/src/utils.rs:998-1017 | `00` decodes to a coin holding 0, which `try_from` refuses |
| Integers.PositiveCoin.DecodeChecked | pallas-codec/src/utils.rs:998-1017 | a corrected decoder: it never gives 0, and otherwise agrees with `Decode` |
| Integers.PositiveCoinDecodeEncoding | pallas-codec/src/utils.rs:1001-1017 | every coin `try_from` accepts is read back from its encoding by the corrected decoder |
| Integers.NonZeroInt.TryFrom | pallas-codec/src/utils.rs:1040-1056 | 0 is refused and handed back; every other value is kept and `i64::from` returns it |
| Integers.NonZeroInt.ToI64 | pallas-codec/src/utils.rs:1052-1056 | `i64::from`: the value held |
| Integers.NonZeroInt.Encoding | pallas-codec/src/utils.rs:1076-1086 | the `i64` encoding of the value; `NonZeroIntDecodeEncoding` reads it back |
| Integers.NonZeroInt.Decode | pallas-codec/src/utils.rs:1064-1074 | succeeds exactly when `i64` decoding gives a nonzero value, and gives that value and position |
| Integers.NonZeroIntDecodeEncoding | pallas-codec/src/utils.rs:1064-1086 | every nonzero `i64` is read back from its encoding |
| Raw.KeepRaw.From | pallas-codec/src/utils.rs:1147-1156 | a value built from a value has no original bytes |
| Raw.KeepRaw.RawCbor | pallas-codec/src/utils.rs:1109-1111 | the original bytes held, read without change |
| Raw.KeepRaw.Unwrap | pallas-codec/src/utils.rs:1113-1115 | the value held |
| Raw.KeepRaw.Encoding | pallas-codec/src/utils.rs:1175-1193 | the bytes `Encode` writes: `raw` if it is not empty, else the value encoding; `ReEncode` shows a decoded value writes its own span |
| Raw.KeepRaw.ClearRaw | pallas-codec/src/utils.rs:1117-1119 | `raw` becomes empty and the value is unchanged |
| Raw.KeepRaw.ToOwned | pallas-codec/src/utils.rs:1121-1126 | a new object with the same bytes and the same value |
| Raw.KeepRaw.DerefMut | pallas-codec/src/utils.rs:1137-1145 | after mutable access and the caller's change, `raw` is empty and the value is the changed one |
| Raw.KeepRaw.Encode | pallas-codec/src/utils.rs:1175-1193 | appends `raw` verbatim if it is not empty, else the value's own encoding |
| Raw.KeepRaw.Decode | pallas-codec/src/utils.rs:1158-1173 | fails exactly when the inner decoder fails; otherwise it holds the inner value and exactly the bytes from the start position to where the inner decoder stopped |
| Raw.ReEncode | pallas-codec/src/utils.rs:1158-1193 | decoding into a `KeepRaw` and encoding it again writes exactly the decoded span of the input |
| Raw.UnwrapAll | pallas-codec/src/utils.rs:1113-1115 | unwrapping a list of `KeepRaw` values gives their values, in order |
| Raw.DecodeIndefiniteExample | pallas-codec/src/utils.rs:1526-1535 | `9F 01 02 FF` decodes as a `Vec` to `[1, 2]`, consuming four bytes |
| Raw.RetainsOriginal | pallas-codec/src/utils.rs:1526-1535 | a `KeepRaw` decoded from `9F 01 02 FF` holds `[1, 2]` and all four original bytes |
| Raw.FallsBackToEncode | pallas-codec/src/utils.rs:1538-1548 | a `KeepRaw` made `From` `[1, 2]` is written `82 01 02` |
| Raw.ClearsOriginalWhenMutated | pallas-codec/src/utils.rs:1551-1566 | decoding `9F 01 02 FF` and pushing 3 through `deref_mut` gives `[1, 2, 3]`, written `83 01 02 03` |
| Raw.AnyCbor.FromEncode | pallas-codec/src/utils.rs:1248-1254 | the bytes held are the value's encoding |
| Raw.AnyCbor.IntoDecode | pallas-codec/src/utils.rs:1256-1261 | succeeds exactly when the value decodes from the start of the bytes, and gives that value |
| Raw.IntoDecodeFromEncode | pallas-codec/src/utils.rs:1248-1261 | `into_decode` of `from_encode(x)` is `x` |
| Raw.AnyCbor.Decode | pallas-codec/src/utils.rs:1272-1286 | succeeds exactly when `skip` does, and holds exactly the skipped bytes |
| Raw.AnyCbor.Encode | pallas-codec/src/utils.rs:1288-1298 | appends the held bytes verbatim |
| Raw.AnyCbor.RawBytes | pallas-codec/src/utils.rs:1240-1242 | the bytes held |
| Raw.DecodeFromEncode | pallas-codec/src/utils.rs:1248-1286 | decoding an item gives what `from_encode` of its value gives |
| Nullables.Nullable.Map | pallas-codec/src/utils.rs:1315-1325 | `map` keeps `Some`, `Null` and `Undefined` apart and applies `f` to a present value, so it commutes with the conversion into an `Option` |
| Nullables.Nullable.ToOption | pallas-codec/src/utils.rs:1396-1406 | `Some` exactly for a present value, which is kept; `Null` and `Undefined` both become `None` |
| Nullables.Nullable.FromOption | pallas-codec/src/utils.rs:1384-1394 | converting back into an `Option` gives the original; the result is never `Undefined` |
| Nullables.OptionRoundTrip | pallas-codec/src/utils.rs:1384-1406 | converting a `Nullable` into an `Option` and back gives it back exactly when it is not `Undefined` |
| Nullables.Nullable.Decode | pallas-codec/src/utils.rs:1336-1356 | `Null` if and only if the byte is `F6`, `Undefined` if and only if it is `F7`, each consuming one byte; on any other byte it succeeds exactly when the inner decoder does, and gives what it gives |
| Nullables.Nullable.Encoding | pallas-codec/src/utils.rs:1358-1382 | `F6` for `Null`, `F7` for `Undefined`, the inner encoding for `Some`; `DecodeEncoding` reads it back |
| Nullables.DecodeEncoding | pallas-codec/src/utils.rs:1336-1382 | decoding what `Encoding` writes gives back the same value, for an inner type whose first byte is never `F6` or `F7` |
| Nullables.NestedNullCollapses | pallas-codec/src/utils.rs:1358-1382 | a nested `Some(Null)` is written with the same bytes as the outer `Null`, and decoding those bytes gives the outer `Null`, whatever the inner decoder |
| ByteStrings.HexEncode | pallas-codec/src/utils.rs:1462-1474 | two lowercase hex digits per byte |
| ByteStrings.HexDecode | pallas-codec/src/utils.rs:1444-1460 | over the UTF-8 bytes of the text: succeeds exactly on an even number of bytes that are all hex digits of either case, giving half as many bytes; an odd byte count is `OddLength`, checked first; otherwise the error names the first byte that is not a digit, cast to a character, and its byte index |
| ByteStrings.HexRoundTrip | pallas-codec/src/utils.rs:1444-1474 | decoding the hex text of any bytes gives the bytes back |
| ByteStrings.HexCaseExample | pallas-codec/src/utils.rs:1444-1474 | `0A` and `0a` both decode to the byte 10, which is written `0a`; `abc` is `OddLength`; `0g` is an invalid `g` at index 1 |
| ByteStrings.HexNonAsciiExample | pallas-codec/src/utils.rs:1444-1460 | `é` is the two bytes `C3 A9`; `é0` is three bytes and so `OddLength`; `éé` is refused at byte 0 with the character `Ã`, the byte `C3` cast to a character |
| ByteStrings.Bytes.FromVec | pallas-codec/src/utils.rs:1416-1426 | converting from a `Vec<u8>` and back gives the same bytes |
| ByteStrings.Bytes.ToVec | pallas-codec/src/utils.rs:1422-1434 | `Vec::from` and `deref`: the bytes held |
| ByteStrings.Bytes.ToArray | pallas-codec/src/utils.rs:1436-1442 | the conversion into `[u8; n]` succeeds exactly when there are `n` bytes, and gives them |
| ByteStrings.Bytes.FromHex | pallas-codec/src/utils.rs:1444-1460 | `try_from(String)` and `from_str` succeed exactly when the UTF-8 bytes of the text decode as hex, giving those bytes; the UTF-8 of writing them back is the text's bytes with their digits lowered; the error is the hex error |
| ByteStrings.Bytes.ToHex | pallas-codec/src/utils.rs:1462-1474 | parsing the `String` conversion (the `Display` text) gives the same `Bytes` back |
| Cbor.ReadByteVec | pallas-codec/src/utils.rs:1414 | `ByteVec`'s reading: where `bytes()` reads a definite byte string it gives the same; after an indefinite byte-string head it is the joined chunks |
| Cbor.ReadChunks | pallas-codec/src/utils.rs:1414 | the chunks of an indefinite byte string are read up to and including the break, ending exactly where `skip` ends over them |
| ByteStrings.Bytes.Decode | pallas-codec/src/utils.rs:1408-1414 | the transparent decoding through `ByteVec` succeeds exactly when one byte string can be read, definite or indefinite, and holds its contents, an indefinite string's chunks joined in order; on a definite byte string it is exactly what `bytes()` reads |
| ByteStrings.Bytes.Encoding | pallas-codec/src/utils.rs:1408-1414 | the transparent encoding: one definite byte string of the bytes; `BytesDecodeEncoding` reads it back |
| ByteStrings.BytesChunkedExample | pallas-codec/src/utils.rs:1408-1414 | `5F 41 01 41 02 FF`, an indefinite byte string of two chunks, decodes to the bytes `01 02`, ending after the break |
| ByteStrings.BytesDecodeEncoding | pallas-codec/src/utils.rs:1408-1414 | a byte string written from `Bytes` decodes back to the same `Bytes` |

## Left out

- `SkipCbor`: a debugging aid that prints and whose encoder is unimplemented.
- The serde `Serialize` and `Deserialize` implementations, including `KeepRaw`'s: these
  map to and from text formats that have no byte contract.
- The `HashMap` conversions of `KeyValuePairs`: HashMap iteration order is unspecified,
  and the conversion drops duplicate keys.
- `Int`: its range and `i128` conversions belong to `minicbor::data::Int`, which is not
  part of this model.
- The `Cow` lifetime of `KeepRaw`'s bytes: `raw` is an owned sequence, so `to_owned` is a
  copy of contents.
- `Nullable::as_ref`, the `IntoIterator` implementations and the `&T` conversions: these
  are borrows of the same data.
- Error texts and byte positions: decoding errors are the single `Invalid`, except the
  set tag error, which carries the tag number.
- `Display` formatting beyond the hex text that `ToHex` gives.
- Write failures: the writer is an in-memory buffer that cannot fail.
- minicbor's internals. `Cbor` states the behaviours the wrappers rely on:
  - heads are written in the shortest form and read in any width;
  - `datatype()` puts every unsigned head with additional information up to 24 in the
    one-byte class;
  - a `Vec` is read from either length form and written with a definite count;
  - `bytes()`, which `CborWrap` calls, reads definite byte strings only; `Bytes` decodes
    through `ByteVec`, which also joins the chunks of an indefinite byte string;
  - trailing bytes after a decoded value are left alone.
- `Skip`: its walk over one item follows RFC 8949 structure rather than minicbor's own
  algorithm, and it accepts text strings without checking UTF-8.
- `Set`, `NonEmptySet`, `CborWrap`, `TagWrap`, `EmptyMap`, `ZeroOrOneArray`, `Nullable`,
  `PositiveCoin`, `NonZeroInt` and `Bytes`: their encoders make a fixed sequence of
  engine calls with no loop of their own. They are modelled only by pure `Encoding`
  functions.
- `Utf8`: the bytes of a Rust `str` are modelled by the UTF-8 encoding of RFC 3629
  section 3. Only its ASCII case, its concatenation law and one non-ASCII example are
  proved about it.
- Element codecs are parameters, and round-trip lemmas assume they are `Sound`. Every
  length is assumed below 2^64.

## Findings

| source | as written | input that shows it | evidently intended | confidence | as-written member | corrected member |
|---|---|---|---|---|---|---|
| pallas-codec/src/utils.rs:496 | an indefinite map's count defaults to 0, so no properties are read and the entries and the break stay unread | `BF 00 01 FF` decodes to no properties, stopping after one byte | read the properties up to the break | medium, not executed | Properties.IndefiniteMapExample | Properties.DecodeAnyLengthIndefinite |
| pallas-codec/src/utils.rs:904-906 | the one-byte class is split by value, so an explicit one-byte head holding a value below 24 becomes `MajorByte` | `18 05` decodes to `MajorByte(5)`, which re-encodes as `05` | keep the width the value was written with, as the type's doc comment says | medium, not executed | Integers.WidthLostExample | Integers.AnyUInt.DecodeByHead |
| pallas-codec/src/utils.rs:998-1005 | the derived transparent decoder accepts any `u64` | `00` decodes to a `PositiveCoin` holding 0, outside the documented range 1 to 2^64-1, and `try_from` refuses it | refuse 0 on decoding, as `try_from` does | medium, not executed | Integers.PositiveCoinAcceptsZero | Integers.PositiveCoin.DecodeChecked |
