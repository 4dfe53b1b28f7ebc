/**
 * A minimal byte-level model of CBOR (RFC 8949), standing in for the low-level
 * encoder/decoder engine that the wrapper types are written against.
 *
 * A decoder is a function from an input buffer and a read position to the decoded
 * value and the position just after it.  An encoder is a function giving the bytes it
 * appends to the writer; `Encoder` is the writer itself.
 */
module Cbor {
  import opened Wrappers

  // ----------------------------------------------------------------- numbers and bytes

  type Byte = x: int | 0 <= x < 0x100
  type UInt16 = x: int | 0 <= x < 0x1_0000
  type UInt32 = x: int | 0 <= x < 0x1_0000_0000
  type UInt64 = x: int | 0 <= x < 0x1_0000_0000_0000_0000
  type Int64 = x: int | -0x8000_0000_0000_0000 <= x < 0x8000_0000_0000_0000

  /** 2^64, one more than the largest `u64`. */
  const U64_LIMIT: nat := 0x1_0000_0000_0000_0000

  /** Rust's `n as u64` applied to a length. */
  function AsU64(n: nat): UInt64 { n % U64_LIMIT }

  // Major types (RFC 8949 section 3.1).
  const UNSIGNED: nat := 0
  const NEGATIVE: nat := 1
  const BYTE_STRING: nat := 2
  const TEXT_STRING: nat := 3
  const ARRAY: nat := 4
  const MAP: nat := 5
  const TAG: nat := 6
  const SIMPLE: nat := 7

  /** Additional information 31: indefinite length (section 3.2.2), or break under major type 7. */
  const INDEFINITE: nat := 31
  /** The break stop code that ends an indefinite-length item (section 3.2.1). */
  const BREAK: Byte := 0xFF
  /** The simple values null and undefined (section 3.3). */
  const NULL: Byte := 0xF6
  const UNDEFINED: Byte := 0xF7
  /** Tag 24, "encoded CBOR data item" (section 3.4.5.1). */
  const TAG_ENCODED_CBOR: UInt64 := 24

  // ----------------------------------------------------------------- results and codecs

  /** Every decoding failure; the engine's messages and byte positions are not modelled. */
  datatype Error = Invalid | UnrecognisedTag(tag: UInt64)

  /** A decoded value and the read position just after it. */
  datatype Decoded<+T> = Decoded(value: T, next: nat)

  type DecodeResult<T> = Result<Decoded<T>, Error>

  /** A successful read consumes at least one byte and stays inside the input. */
  ghost predicate Advances<T>(r: DecodeResult<T>, p: nat, n: nat) {
    r.Ok? ==> p < r.value.next <= n
  }

  /** A decoder of `T` values: `Decode` of a type the wrappers are generic over. */
  type DecodeFn<T> = f: (seq<Byte>, nat) -> DecodeResult<T> | forall s, p :: Advances(f(s, p), p, |s|)
    witness (s: seq<Byte>, p: nat) => Err(Invalid)

  /** An encoder of `T` values: the bytes `Encode` of that type appends to the writer. */
  type EncodeFn<!T> = T -> seq<Byte>

  /** `w` occurs in `s` at position `p`. */
  ghost predicate IsAt(s: seq<Byte>, p: nat, w: seq<Byte>) {
    p + |w| <= |s| && s[p..p + |w|] == w
  }

  /** A complete data item never is empty and never starts with the break code. */
  predicate StartsItem(w: seq<Byte>) {
    |w| > 0 && w[0] != BREAK
  }

  /**
   * `dec` reads back whatever `enc` writes, at any position of any buffer a 64-bit
   * machine can hold, and `enc` always writes one data item.
   */
  ghost predicate Sound<T(!new)>(enc: EncodeFn<T>, dec: DecodeFn<T>) {
    && (forall x :: StartsItem(enc(x)))
    && (forall x, s: seq<Byte>, p: nat {:trigger IsAt(s, p, enc(x))} :: |s| < U64_LIMIT && IsAt(s, p, enc(x)) ==> dec(s, p) == Ok(Decoded(x, p + |enc(x)|)))
  }

  lemma IsAtConcat(s: seq<Byte>, p: nat, a: seq<Byte>, b: seq<Byte>)
    ensures IsAt(s, p, a + b) <==> IsAt(s, p, a) && IsAt(s, p + |a|, b)
  {
    if p + |a| + |b| <= |s| {
      assert s[p..p + |a| + |b|] == s[p..p + |a|] + s[p + |a|..p + |a| + |b|];
      if IsAt(s, p, a + b) {
        assert s[p..p + |a|] == (a + b)[..|a|];
        assert s[p + |a|..p + |a| + |b|] == (a + b)[|a|..];
      }
    }
  }

  lemma IsAtPrefix(s: seq<Byte>, p: nat, a: seq<Byte>, b: seq<Byte>)
    requires IsAt(s, p, a + b)
    ensures IsAt(s, p, a) && IsAt(s, p + |a|, b)
  {
    IsAtConcat(s, p, a, b);
  }

  lemma IsAtWhole(s: seq<Byte>)
    ensures IsAt(s, 0, s)
  {
    assert s[0..|s|] == s;
  }

  // ----------------------------------------------------------------------- big endian

  function Pow256(w: nat): (r: nat)
    ensures r > 0
  {
    if w == 0 then 1 else 256 * Pow256(w - 1)
  }

  /** The low `w` bytes of `n`, most significant first (Rust's `to_be_bytes`). */
  function BigEndian(n: nat, w: nat): (r: seq<Byte>)
    ensures |r| == w
  {
    if w == 0 then [] else BigEndian(n / 256, w - 1) + [n % 256]
  }

  function FromBigEndian(b: seq<Byte>): nat {
    if b == [] then 0 else FromBigEndian(b[..|b| - 1]) * 256 + b[|b| - 1]
  }

  lemma {:induction false} FromBigEndianBound(b: seq<Byte>)
    ensures FromBigEndian(b) < Pow256(|b|)
  {
    if b != [] {
      FromBigEndianBound(b[..|b| - 1]);
    }
  }

  lemma {:induction false} BigEndianRoundTrip(n: nat, w: nat)
    requires n < Pow256(w)
    ensures FromBigEndian(BigEndian(n, w)) == n
  {
    if w > 0 {
      BigEndianRoundTrip(n / 256, w - 1);
      var b := BigEndian(n, w);
      assert b[..|b| - 1] == BigEndian(n / 256, w - 1);
    }
  }

  // ------------------------------------------------------------------------- heads

  /** The width of a head's argument: inline in the initial byte, or 1, 2, 4 or 8 bytes after it. */
  datatype Width = Inline | OneByte | TwoBytes | FourBytes | EightBytes

  function Size(w: Width): nat {
    match w
    case Inline => 0
    case OneByte => 1
    case TwoBytes => 2
    case FourBytes => 4
    case EightBytes => 8
  }

  /** Arguments below this bound can be written with width `w`. */
  function Limit(w: Width): nat {
    match w
    case Inline => 24
    case OneByte => 0x100
    case TwoBytes => 0x1_0000
    case FourBytes => 0x1_0000_0000
    case EightBytes => U64_LIMIT
  }

  predicate Fits(w: Width, n: nat) { n < Limit(w) }

  /** The additional information (low five bits of the initial byte) for width `w`. */
  function InfoOf(w: Width, n: nat): nat {
    match w
    case Inline => n
    case OneByte => 24
    case TwoBytes => 25
    case FourBytes => 26
    case EightBytes => 27
  }

  /** A head with an explicitly chosen width (RFC 8949 section 3). */
  function HeadBytes(major: nat, w: Width, n: nat): (r: seq<Byte>)
    requires major < 8 && Fits(w, n)
    ensures |r| == 1 + Size(w) && r[0] == major * 32 + InfoOf(w, n)
  {
    [major * 32 + InfoOf(w, n)] + BigEndian(n, Size(w))
  }

  /** The narrowest width that holds `n`. */
  function Shortest(n: UInt64): (w: Width)
    ensures Fits(w, n)
  {
    if n < 24 then Inline
    else if n < 0x100 then OneByte
    else if n < 0x1_0000 then TwoBytes
    else if n < 0x1_0000_0000 then FourBytes
    else EightBytes
  }

  /** The head the engine writes: always the shortest form (section 4.2.1). */
  function Head(major: nat, n: UInt64): seq<Byte>
    requires major < 8
  {
    HeadBytes(major, Shortest(n), n)
  }

  /** The initial byte of an indefinite-length item of type `major`. */
  function IndefiniteHead(major: nat): Byte
    requires major < 8
  {
    major * 32 + INDEFINITE
  }

  /** A head as read: its major type, additional information, argument, and the position after it. */
  datatype HeadInfo = HeadInfo(major: nat, info: nat, arg: nat, next: nat)

  function ArgumentSize(info: nat): nat {
    if info == 24 then 1 else if info == 25 then 2 else if info == 26 then 4 else 8
  }

  /**
   * Reads the head at `p`, accepting any width for the argument.  Additional information
   * 28 to 30 is not well-formed; 31 is returned as is, with argument 0.
   */
  function ReadHead(s: seq<Byte>, p: nat): (r: Result<HeadInfo, Error>)
    ensures r.Ok? ==> p < r.value.next <= |s| && r.value.major < 8 && r.value.arg < U64_LIMIT
    ensures r.Ok? ==> r.value.major == s[p] / 32 && r.value.info == s[p] % 32
    ensures r.Ok? && r.value.info == INDEFINITE ==> r.value.next == p + 1
  {
    if p >= |s| then Err(Invalid)
    else
      var major, info := s[p] / 32, s[p] % 32;
      if info < 24 then Ok(HeadInfo(major, info, info, p + 1))
      else if info <= 27 then
        var size := ArgumentSize(info);
        if p + 1 + size > |s| then Err(Invalid)
        else
          var bytes := s[p + 1..p + 1 + size];
          FromBigEndianBound(bytes);
          ArgumentSizeBound(info);
          Ok(HeadInfo(major, info, FromBigEndian(bytes), p + 1 + size))
      else if info == INDEFINITE then Ok(HeadInfo(major, info, 0, p + 1))
      else Err(Invalid)
  }

  lemma ArgumentSizeBound(info: nat)
    ensures Pow256(ArgumentSize(info)) <= U64_LIMIT
  {
    assert Pow256(1) == 0x100 && Pow256(2) == 0x1_0000 && Pow256(4) == 0x1_0000_0000 && Pow256(8) == U64_LIMIT;
  }

  lemma LimitIsPower(w: Width)
    ensures !w.Inline? ==> Limit(w) == Pow256(Size(w))
  {
    assert Pow256(1) == 0x100 && Pow256(2) == 0x1_0000 && Pow256(4) == 0x1_0000_0000 && Pow256(8) == U64_LIMIT;
  }

  /** Reading a head gives back its major type and argument, whatever its width. */
  lemma ReadHeadBytes(s: seq<Byte>, p: nat, major: nat, w: Width, n: nat)
    requires major < 8 && Fits(w, n) && IsAt(s, p, HeadBytes(major, w, n))
    ensures ReadHead(s, p) == Ok(HeadInfo(major, InfoOf(w, n), n, p + 1 + Size(w)))
  {
    var h := HeadBytes(major, w, n);
    assert s[p] == s[p..p + |h|][0] == h[0];
    if !w.Inline? {
      assert s[p + 1..p + 1 + Size(w)] == s[p..p + |h|][1..] == BigEndian(n, Size(w));
      LimitIsPower(w);
      BigEndianRoundTrip(n, Size(w));
    }
  }

  /** A head of major type 0 to 6 starts a data item: its initial byte is not the break code. */
  lemma HeadStartsItem(major: nat, n: UInt64, rest: seq<Byte>)
    requires major < 7
    ensures StartsItem(Head(major, n) + rest)
  {
    assert (Head(major, n) + rest)[0] == major * 32 + InfoOf(Shortest(n), n);
  }

  lemma ReadHeadShortest(s: seq<Byte>, p: nat, major: nat, n: UInt64)
    requires major < 8 && IsAt(s, p, Head(major, n))
    ensures ReadHead(s, p).Ok?
    ensures ReadHead(s, p).value.major == major && ReadHead(s, p).value.arg == n
    ensures ReadHead(s, p).value.info != INDEFINITE && ReadHead(s, p).value.next == p + |Head(major, n)|
  {
    ReadHeadBytes(s, p, major, Shortest(n), n);
  }

  // --------------------------------------------------------------- data type probe

  /** The classification the engine's `datatype()` gives by looking at an initial byte. */
  datatype Type =
    | Unsigned8 | Unsigned16 | Unsigned32 | Unsigned64 | Negative
    | ByteString | ByteStringIndef | TextString | TextStringIndef
    | Array | ArrayIndef | Map | MapIndef | Tag
    | Bool | NullMarker | UndefinedMarker | Simple | Float | Break | Unknown

  function TypeOf(b: Byte): Type {
    var major, info := b / 32, b % 32;
    if major == UNSIGNED then
      if info <= 24 then Unsigned8
      else if info == 25 then Unsigned16
      else if info == 26 then Unsigned32
      else if info == 27 then Unsigned64
      else Unknown
    else if major == NEGATIVE then
      if info <= 27 then Negative else Unknown
    else if major == BYTE_STRING then
      if info <= 27 then ByteString else if info == INDEFINITE then ByteStringIndef else Unknown
    else if major == TEXT_STRING then
      if info <= 27 then TextString else if info == INDEFINITE then TextStringIndef else Unknown
    else if major == ARRAY then
      if info <= 27 then Array else if info == INDEFINITE then ArrayIndef else Unknown
    else if major == MAP then
      if info <= 27 then Map else if info == INDEFINITE then MapIndef else Unknown
    else if major == TAG then
      if info <= 27 then Tag else Unknown
    else
      if info <= 19 then Simple
      else if info <= 21 then Bool
      else if info == 22 then NullMarker
      else if info == 23 then UndefinedMarker
      else if info == 24 then Simple
      else if info <= 27 then Float
      else if info == INDEFINITE then Break
      else Unknown
  }

  /** `d.datatype()`: peeks at the next initial byte without consuming it. */
  function DataType(s: seq<Byte>, p: nat): Result<Type, Error> {
    if p < |s| then Ok(TypeOf(s[p])) else Err(Invalid)
  }

  // ------------------------------------------------------------- primitive items

  /** `u8()`, `u16()`, `u32()`, `u64()`: an unsigned integer of any width, if it is below `limit`. */
  function DecodeUnsigned(s: seq<Byte>, p: nat, limit: nat): (r: DecodeResult<nat>)
    ensures Advances(r, p, |s|) && (r.Ok? ==> r.value.value < limit)
  {
    var h :- ReadHead(s, p);
    if h.major != UNSIGNED || h.info == INDEFINITE || h.arg >= limit then Err(Invalid)
    else Ok(Decoded(h.arg, h.next))
  }

  function DecodeU64(s: seq<Byte>, p: nat): (r: DecodeResult<UInt64>)
    ensures Advances(r, p, |s|)
  {
    var d :- DecodeUnsigned(s, p, U64_LIMIT);
    Ok(Decoded(d.value, d.next))
  }

  const U64Encoder: EncodeFn<UInt64> := (n: UInt64) => Head(UNSIGNED, n)
  const U64Decoder: DecodeFn<UInt64> := (s: seq<Byte>, p: nat) => DecodeU64(s, p)

  lemma U64Sound()
    ensures Sound(U64Encoder, U64Decoder)
  {
    forall x: UInt64 ensures StartsItem(U64Encoder(x)) {
      assert U64Encoder(x)[0] == InfoOf(Shortest(x), x);
    }
    forall x: UInt64, s: seq<Byte>, p: nat | |s| < U64_LIMIT && IsAt(s, p, U64Encoder(x))
      ensures U64Decoder(s, p) == Ok(Decoded(x, p + |U64Encoder(x)|))
    {
      ReadHeadShortest(s, p, UNSIGNED, x);
    }
  }

  function DecodeU32(s: seq<Byte>, p: nat): (r: DecodeResult<UInt32>)
    ensures Advances(r, p, |s|)
  {
    var d :- DecodeUnsigned(s, p, 0x1_0000_0000);
    Ok(Decoded(d.value, d.next))
  }

  const U32Encoder: EncodeFn<UInt32> := (n: UInt32) => Head(UNSIGNED, n)
  const U32Decoder: DecodeFn<UInt32> := (s: seq<Byte>, p: nat) => DecodeU32(s, p)

  lemma DecodeU32At(x: UInt32, s: seq<Byte>, p: nat)
    requires IsAt(s, p, Head(UNSIGNED, x))
    ensures DecodeU32(s, p) == Ok(Decoded(x, p + |Head(UNSIGNED, x)|))
  {
    ReadHeadShortest(s, p, UNSIGNED, x);
  }

  lemma U32Sound()
    ensures Sound(U32Encoder, U32Decoder)
  {
    forall x: UInt32 ensures StartsItem(U32Encoder(x)) {
      assert U32Encoder(x)[0] == InfoOf(Shortest(x), x);
    }
    forall x: UInt32, s: seq<Byte>, p: nat | |s| < U64_LIMIT && IsAt(s, p, U32Encoder(x))
      ensures U32Decoder(s, p) == Ok(Decoded(x, p + |U32Encoder(x)|))
    {
      DecodeU32At(x, s, p);
    }
  }

  /** `i64()`: major type 0 or 1, with a value that fits an `i64`. */
  function DecodeInt64(s: seq<Byte>, p: nat): (r: DecodeResult<Int64>)
    ensures Advances(r, p, |s|)
  {
    var h :- ReadHead(s, p);
    if h.info == INDEFINITE || h.arg >= 0x8000_0000_0000_0000 then Err(Invalid)
    else if h.major == UNSIGNED then Ok(Decoded(h.arg, h.next))
    else if h.major == NEGATIVE then Ok(Decoded(-1 - h.arg, h.next))
    else Err(Invalid)
  }

  /** The engine's `i64` encoding: major type 0 for n >= 0, else major type 1 with argument -1 - n. */
  function EncodeInt64(n: Int64): seq<Byte> {
    if n >= 0 then Head(UNSIGNED, n) else Head(NEGATIVE, -1 - n)
  }

  const Int64Encoder: EncodeFn<Int64> := (n: Int64) => EncodeInt64(n)
  const Int64Decoder: DecodeFn<Int64> := (s: seq<Byte>, p: nat) => DecodeInt64(s, p)

  lemma DecodeInt64At(x: Int64, s: seq<Byte>, p: nat)
    requires IsAt(s, p, EncodeInt64(x))
    ensures DecodeInt64(s, p) == Ok(Decoded(x, p + |EncodeInt64(x)|))
  {
    if x >= 0 {
      ReadHeadShortest(s, p, UNSIGNED, x);
    } else {
      ReadHeadShortest(s, p, NEGATIVE, -1 - x);
    }
  }

  lemma Int64StartsItem(x: Int64)
    ensures StartsItem(EncodeInt64(x))
  {
    if x >= 0 {
      assert EncodeInt64(x)[0] == InfoOf(Shortest(x), x);
    } else {
      assert EncodeInt64(x)[0] == 32 + InfoOf(Shortest(-1 - x), -1 - x);
    }
  }

  lemma Int64Sound()
    ensures Sound(Int64Encoder, Int64Decoder)
  {
    forall x: Int64 ensures StartsItem(Int64Encoder(x)) {
      Int64StartsItem(x);
    }
    forall x: Int64, s: seq<Byte>, p: nat | |s| < U64_LIMIT && IsAt(s, p, Int64Encoder(x))
      ensures Int64Decoder(s, p) == Ok(Decoded(x, p + |Int64Encoder(x)|))
    {
      DecodeInt64At(x, s, p);
    }
  }

  /** `tag()`: the number of a tag head (major type 6). */
  function ReadTag(s: seq<Byte>, p: nat): (r: DecodeResult<UInt64>)
    ensures Advances(r, p, |s|)
  {
    var h :- ReadHead(s, p);
    if h.major != TAG || h.info == INDEFINITE then Err(Invalid) else Ok(Decoded(h.arg, h.next))
  }

  function EncodeTag(t: UInt64): seq<Byte> { Head(TAG, t) }

  lemma ReadTagRoundTrip(s: seq<Byte>, p: nat, t: UInt64)
    requires IsAt(s, p, EncodeTag(t))
    ensures ReadTag(s, p) == Ok(Decoded(t, p + |EncodeTag(t)|))
  {
    ReadHeadShortest(s, p, TAG, t);
  }

  /** `bytes()`: a definite-length byte string (major type 2). */
  function ReadBytes(s: seq<Byte>, p: nat): (r: DecodeResult<seq<Byte>>)
    ensures Advances(r, p, |s|)
  {
    var h :- ReadHead(s, p);
    if h.major != BYTE_STRING || h.info == INDEFINITE || h.next + h.arg > |s| then Err(Invalid)
    else Ok(Decoded(s[h.next..h.next + h.arg], h.next + h.arg))
  }

  /**
   * The decoding of `ByteVec` (through `bytes_iter()`): a definite byte string, or an
   * indefinite one whose definite chunks are joined in order.
   */
  function ReadByteVec(s: seq<Byte>, p: nat): (r: DecodeResult<seq<Byte>>)
    ensures Advances(r, p, |s|)
    ensures ReadBytes(s, p).Ok? ==> r == ReadBytes(s, p)
    ensures p < |s| && s[p] == IndefiniteHead(BYTE_STRING) ==> r == ReadChunks(s, p + 1)
  {
    var h :- ReadHead(s, p);
    if h.major != BYTE_STRING then Err(Invalid)
    else if h.info == INDEFINITE then ReadChunks(s, h.next)
    else if h.next + h.arg > |s| then Err(Invalid)
    else Ok(Decoded(s[h.next..h.next + h.arg], h.next + h.arg))
  }

  /** The chunks of an indefinite byte string, joined, up to and including the break. */
  function ReadChunks(s: seq<Byte>, q: nat): (r: DecodeResult<seq<Byte>>)
    ensures Advances(r, q, |s|)
    ensures r.Ok? ==> SkipChunks(s, q, BYTE_STRING) == Ok(r.value.next)
    decreases |s| - q
  {
    if q >= |s| then Err(Invalid)
    else if s[q] == BREAK then Ok(Decoded([], q + 1))
    else
      var h :- ReadHead(s, q);
      if h.major != BYTE_STRING || h.info == INDEFINITE || h.next + h.arg > |s| then Err(Invalid)
      else
        var rest :- ReadChunks(s, h.next + h.arg);
        Ok(Decoded(s[h.next..h.next + h.arg] + rest.value, rest.next))
  }

  /** `bytes(b)`: a definite-length byte string with the shortest head. */
  function EncodeBytes(b: seq<Byte>): seq<Byte> {
    Head(BYTE_STRING, AsU64(|b|)) + b
  }

  lemma ReadBytesRoundTrip(s: seq<Byte>, p: nat, b: seq<Byte>)
    requires |s| < U64_LIMIT && IsAt(s, p, EncodeBytes(b))
    ensures ReadBytes(s, p) == Ok(Decoded(b, p + |EncodeBytes(b)|))
  {
    IsAtPrefix(s, p, Head(BYTE_STRING, AsU64(|b|)), b);
    ReadHeadShortest(s, p, BYTE_STRING, AsU64(|b|));
  }

  /** `array()` and `map()`: a definite count, or None for an indefinite length. */
  datatype Length = Definite(n: UInt64) | Indefinite

  function ReadLength(s: seq<Byte>, p: nat, major: nat): (r: DecodeResult<Length>)
    ensures Advances(r, p, |s|)
  {
    var h :- ReadHead(s, p);
    if h.major != major then Err(Invalid)
    else if h.info == INDEFINITE then Ok(Decoded(Indefinite, h.next))
    else Ok(Decoded(Definite(h.arg), h.next))
  }

  lemma ReadLengthDefinite(s: seq<Byte>, p: nat, major: nat, n: UInt64)
    requires major < 8 && IsAt(s, p, Head(major, n))
    ensures ReadLength(s, p, major) == Ok(Decoded(Definite(n), p + |Head(major, n)|))
  {
    ReadHeadShortest(s, p, major, n);
  }

  lemma ReadLengthIndefinite(s: seq<Byte>, p: nat, major: nat)
    requires major < 8 && IsAt(s, p, [IndefiniteHead(major)])
    ensures ReadLength(s, p, major) == Ok(Decoded(Indefinite, p + 1))
  {
    assert s[p] == IndefiniteHead(major);
  }

  // -------------------------------------------------------- sequences of items

  /** The items of `xs`, each encoded in turn. */
  function ItemsBytes<T>(enc: EncodeFn<T>, xs: seq<T>): seq<Byte> {
    if xs == [] then [] else enc(xs[0]) + ItemsBytes(enc, xs[1..])
  }

  lemma {:induction false} ItemsBytesConcat<T>(enc: EncodeFn<T>, a: seq<T>, b: seq<T>)
    ensures ItemsBytes(enc, a + b) == ItemsBytes(enc, a) + ItemsBytes(enc, b)
  {
    if a != [] {
      assert (a + b)[0] == a[0];
      assert (a + b)[1..] == a[1..] + b;
      ItemsBytesConcat(enc, a[1..], b);
      calc {
        ItemsBytes(enc, a + b);
        enc(a[0]) + ItemsBytes(enc, a[1..] + b);
        enc(a[0]) + (ItemsBytes(enc, a[1..]) + ItemsBytes(enc, b));
        ItemsBytes(enc, a) + ItemsBytes(enc, b);
      }
    } else {
      assert a + b == b;
    }
  }

  lemma ItemsBytesSnoc<T>(enc: EncodeFn<T>, xs: seq<T>, i: nat)
    requires i < |xs|
    ensures ItemsBytes(enc, xs[..i + 1]) == ItemsBytes(enc, xs[..i]) + enc(xs[i])
  {
    assert xs[..i + 1] == xs[..i] + [xs[i]];
    ItemsBytesConcat(enc, xs[..i], [xs[i]]);
    assert ItemsBytes(enc, [xs[i]]) == enc(xs[i]) + ItemsBytes(enc, []);
  }

  lemma {:induction false} ItemsBytesLength<T(!new)>(enc: EncodeFn<T>, xs: seq<T>)
    requires forall x :: StartsItem(enc(x))
    ensures |ItemsBytes(enc, xs)| >= |xs|
  {
    if xs != [] {
      ItemsBytesLength(enc, xs[1..]);
    }
  }

  /** Exactly `n` items in a row. */
  function DecodeItems<T>(dec: DecodeFn<T>, s: seq<Byte>, p: nat, n: nat): (r: DecodeResult<seq<T>>)
    ensures r.Ok? ==> |r.value.value| == n && p <= r.value.next && (n > 0 ==> r.value.next <= |s|)
    ensures r.Ok? && n == 0 ==> r.value.next == p
    decreases n
  {
    if n == 0 then Ok(Decoded([], p))
    else
      var x :- dec(s, p);
      var rest :- DecodeItems(dec, s, x.next, n - 1);
      Ok(Decoded([x.value] + rest.value, rest.next))
  }

  /** Items up to and including a break code. */
  function DecodeUntilBreak<T>(dec: DecodeFn<T>, s: seq<Byte>, p: nat): (r: DecodeResult<seq<T>>)
    ensures Advances(r, p, |s|)
    decreases |s| - p
  {
    if p >= |s| then Err(Invalid)
    else if s[p] == BREAK then Ok(Decoded([], p + 1))
    else
      var x :- dec(s, p);
      var rest :- DecodeUntilBreak(dec, s, x.next);
      Ok(Decoded([x.value] + rest.value, rest.next))
  }

  /** One use of `Sound`: the item written for `x` at `p` reads back as `x`. */
  lemma SoundAt<T(!new)>(enc: EncodeFn<T>, dec: DecodeFn<T>, x: T, s: seq<Byte>, p: nat)
    requires Sound(enc, dec) && |s| < U64_LIMIT && IsAt(s, p, enc(x))
    ensures dec(s, p) == Ok(Decoded(x, p + |enc(x)|)) && StartsItem(enc(x))
  {
  }

  lemma {:induction false} DecodeItemsRoundTrip<T(!new)>(enc: EncodeFn<T>, dec: DecodeFn<T>, xs: seq<T>, s: seq<Byte>, p: nat)
    requires Sound(enc, dec) && |s| < U64_LIMIT && IsAt(s, p, ItemsBytes(enc, xs))
    ensures DecodeItems(dec, s, p, |xs|) == Ok(Decoded(xs, p + |ItemsBytes(enc, xs)|))
  {
    if xs != [] {
      var first, rest := enc(xs[0]), ItemsBytes(enc, xs[1..]);
      assert ItemsBytes(enc, xs) == first + rest;
      IsAtPrefix(s, p, first, rest);
      SoundAt(enc, dec, xs[0], s, p);
      DecodeItemsRoundTrip(enc, dec, xs[1..], s, p + |first|);
      assert [xs[0]] + xs[1..] == xs;
    }
  }

  lemma DecodeUntilBreakStep<T>(dec: DecodeFn<T>, s: seq<Byte>, p: nat, x: T, q: nat, xs: seq<T>, r: nat)
    requires p < |s| && s[p] != BREAK && dec(s, p) == Ok(Decoded(x, q))
    requires DecodeUntilBreak(dec, s, q) == Ok(Decoded(xs, r))
    ensures DecodeUntilBreak(dec, s, p) == Ok(Decoded([x] + xs, r))
  {
  }

  lemma {:induction false} DecodeUntilBreakRoundTrip<T(!new)>(enc: EncodeFn<T>, dec: DecodeFn<T>, xs: seq<T>, s: seq<Byte>, p: nat)
    requires Sound(enc, dec) && |s| < U64_LIMIT && IsAt(s, p, ItemsBytes(enc, xs) + [BREAK])
    ensures DecodeUntilBreak(dec, s, p) == Ok(Decoded(xs, p + |ItemsBytes(enc, xs)| + 1))
  {
    var w := ItemsBytes(enc, xs) + [BREAK];
    if xs == [] {
      assert s[p] == s[p..p + |w|][0] == BREAK;
    } else {
      var first, rest := enc(xs[0]), ItemsBytes(enc, xs[1..]);
      assert w == first + (rest + [BREAK]);
      IsAtPrefix(s, p, first, rest + [BREAK]);
      SoundAt(enc, dec, xs[0], s, p);
      assert s[p] == s[p..p + |first|][0] == first[0];
      DecodeUntilBreakRoundTrip(enc, dec, xs[1..], s, p + |first|);
      DecodeUntilBreakStep(dec, s, p, xs[0], p + |first|, xs[1..], p + |first| + |rest| + 1);
      assert [xs[0]] + xs[1..] == xs;
    }
  }

  // ---------------------------------------------------------------- arrays and maps

  /** `Vec<T>`'s encoding: a definite-length array (major type 4). */
  function EncodeArray<T>(enc: EncodeFn<T>, xs: seq<T>): seq<Byte> {
    Head(ARRAY, AsU64(|xs|)) + ItemsBytes(enc, xs)
  }

  /** `Vec<T>`'s decoding: an array of either length form. */
  function DecodeArray<T>(dec: DecodeFn<T>, s: seq<Byte>, p: nat): (r: DecodeResult<seq<T>>)
    ensures Advances(r, p, |s|)
  {
    var len :- ReadLength(s, p, ARRAY);
    match len.value
    case Definite(n) => DecodeItems(dec, s, len.next, n)
    case Indefinite => DecodeUntilBreak(dec, s, len.next)
  }

  function ArrayEncoder<T>(enc: EncodeFn<T>): EncodeFn<seq<T>> {
    (xs: seq<T>) => EncodeArray(enc, xs)
  }

  function ArrayDecoder<T>(dec: DecodeFn<T>): DecodeFn<seq<T>> {
    (s: seq<Byte>, p: nat) => DecodeArray(dec, s, p)
  }

  /** A count head of type `major` followed by that many items: the count and then the items read back. */
  lemma DecodeCounted<T(!new)>(major: nat, enc: EncodeFn<T>, dec: DecodeFn<T>, xs: seq<T>, s: seq<Byte>, p: nat)
    requires major < 8 && Sound(enc, dec) && |s| < U64_LIMIT
    requires IsAt(s, p, Head(major, AsU64(|xs|)) + ItemsBytes(enc, xs))
    ensures AsU64(|xs|) == |xs|
    ensures ReadLength(s, p, major) == Ok(Decoded(Definite(|xs|), p + |Head(major, AsU64(|xs|))|))
    ensures DecodeItems(dec, s, p + |Head(major, AsU64(|xs|))|, |xs|)
         == Ok(Decoded(xs, p + |Head(major, AsU64(|xs|))| + |ItemsBytes(enc, xs)|))
  {
    CountedHead(major, enc, xs, s, p);
    DecodeItemsRoundTrip(enc, dec, xs, s, p + |Head(major, AsU64(|xs|))|);
  }

  /**
   * The count head in front of items that fit in a buffer shorter than 2^64 bytes: the
   * count is not wrapped, and the items start right after the head.
   */
  lemma CountedHead<T(!new)>(major: nat, enc: EncodeFn<T>, xs: seq<T>, s: seq<Byte>, p: nat)
    requires major < 8 && (forall x :: StartsItem(enc(x))) && |s| < U64_LIMIT
    requires IsAt(s, p, Head(major, AsU64(|xs|)) + ItemsBytes(enc, xs))
    ensures AsU64(|xs|) == |xs|
    ensures ReadLength(s, p, major) == Ok(Decoded(Definite(|xs|), p + |Head(major, AsU64(|xs|))|))
    ensures IsAt(s, p + |Head(major, AsU64(|xs|))|, ItemsBytes(enc, xs))
  {
    var head, body := Head(major, AsU64(|xs|)), ItemsBytes(enc, xs);
    IsAtPrefix(s, p, head, body);
    ItemsBytesLength(enc, xs);
    SmallCount(|xs|);
    ReadLengthDefinite(s, p, major, |xs|);
  }

  lemma SmallCount(n: nat)
    requires n < U64_LIMIT
    ensures AsU64(n) == n
  {
  }

  /** A definite-length array decodes to its items, in order. */
  lemma DecodeArrayDefinite<T(!new)>(enc: EncodeFn<T>, dec: DecodeFn<T>, xs: seq<T>, s: seq<Byte>, p: nat)
    requires Sound(enc, dec) && |s| < U64_LIMIT && IsAt(s, p, EncodeArray(enc, xs))
    ensures DecodeArray(dec, s, p) == Ok(Decoded(xs, p + |EncodeArray(enc, xs)|))
  {
    DecodeCounted(ARRAY, enc, dec, xs, s, p);
  }

  /** The indefinite-length form of the same items. */
  function EncodeArrayIndef<T>(enc: EncodeFn<T>, xs: seq<T>): seq<Byte> {
    [IndefiniteHead(ARRAY)] + ItemsBytes(enc, xs) + [BREAK]
  }

  /** An indefinite-length array decodes to the same items. */
  lemma DecodeArrayIndefinite<T(!new)>(enc: EncodeFn<T>, dec: DecodeFn<T>, xs: seq<T>, s: seq<Byte>, p: nat)
    requires Sound(enc, dec) && |s| < U64_LIMIT && IsAt(s, p, EncodeArrayIndef(enc, xs))
    ensures DecodeArray(dec, s, p) == Ok(Decoded(xs, p + |EncodeArrayIndef(enc, xs)|))
  {
    assert EncodeArrayIndef(enc, xs) == [IndefiniteHead(ARRAY)] + (ItemsBytes(enc, xs) + [BREAK]);
    IsAtPrefix(s, p, [IndefiniteHead(ARRAY)], ItemsBytes(enc, xs) + [BREAK]);
    ReadLengthIndefinite(s, p, ARRAY);
    DecodeUntilBreakRoundTrip(enc, dec, xs, s, p + 1);
  }

  lemma ArraySound<T(!new)>(enc: EncodeFn<T>, dec: DecodeFn<T>)
    requires Sound(enc, dec)
    ensures Sound(ArrayEncoder(enc), ArrayDecoder(dec))
  {
    ArrayStartsItem(enc);
    ArrayDecodesAt(enc, dec);
  }

  lemma ArrayStartsItem<T>(enc: EncodeFn<T>)
    ensures forall xs :: StartsItem(ArrayEncoder(enc)(xs))
  {
    forall xs: seq<T> ensures StartsItem(ArrayEncoder(enc)(xs)) {
      HeadStartsItem(ARRAY, AsU64(|xs|), ItemsBytes(enc, xs));
    }
  }

  lemma ArrayDecodesAt<T(!new)>(enc: EncodeFn<T>, dec: DecodeFn<T>)
    requires Sound(enc, dec)
    ensures forall xs, s: seq<Byte>, p: nat {:trigger IsAt(s, p, ArrayEncoder(enc)(xs))} :: |s| < U64_LIMIT && IsAt(s, p, ArrayEncoder(enc)(xs)) ==>
      ArrayDecoder(dec)(s, p) == Ok(Decoded(xs, p + |ArrayEncoder(enc)(xs)|))
  {
    forall xs: seq<T>, s: seq<Byte>, p: nat | |s| < U64_LIMIT && IsAt(s, p, ArrayEncoder(enc)(xs))
      ensures ArrayDecoder(dec)(s, p) == Ok(Decoded(xs, p + |ArrayEncoder(enc)(xs)|))
    {
      DecodeArrayDefinite(enc, dec, xs, s, p);
    }
  }

  /** A key followed by its value. */
  function PairEncoder<K, V>(encK: EncodeFn<K>, encV: EncodeFn<V>): EncodeFn<(K, V)> {
    (kv: (K, V)) => encK(kv.0) + encV(kv.1)
  }

  function PairDecoder<K, V>(decK: DecodeFn<K>, decV: DecodeFn<V>): DecodeFn<(K, V)> {
    (s: seq<Byte>, p: nat) =>
      var k :- decK(s, p);
      var v :- decV(s, k.next);
      Ok(Decoded((k.value, v.value), v.next))
  }

  lemma PairSound<K(!new), V(!new)>(encK: EncodeFn<K>, decK: DecodeFn<K>, encV: EncodeFn<V>, decV: DecodeFn<V>)
    requires Sound(encK, decK) && Sound(encV, decV)
    ensures Sound(PairEncoder(encK, encV), PairDecoder(decK, decV))
  {
    forall kv: (K, V) ensures StartsItem(PairEncoder(encK, encV)(kv)) {
      assert StartsItem(encK(kv.0));
    }
    forall kv: (K, V), s: seq<Byte>, p: nat | |s| < U64_LIMIT && IsAt(s, p, PairEncoder(encK, encV)(kv))
      ensures PairDecoder(decK, decV)(s, p) == Ok(Decoded(kv, p + |PairEncoder(encK, encV)(kv)|))
    {
      IsAtPrefix(s, p, encK(kv.0), encV(kv.1));
    }
  }

  /** A definite-length map (major type 5) of the given entries, in order. */
  function EncodeMap<K, V>(encK: EncodeFn<K>, encV: EncodeFn<V>, entries: seq<(K, V)>): seq<Byte> {
    Head(MAP, AsU64(|entries|)) + ItemsBytes(PairEncoder(encK, encV), entries)
  }

  /** The indefinite-length form of the same entries. */
  function EncodeMapIndef<K, V>(encK: EncodeFn<K>, encV: EncodeFn<V>, entries: seq<(K, V)>): seq<Byte> {
    [IndefiniteHead(MAP)] + ItemsBytes(PairEncoder(encK, encV), entries) + [BREAK]
  }

  /** `map_iter_with(..).collect()`: the entries of a map of either length form, in wire order. */
  function DecodeMap<K, V>(decK: DecodeFn<K>, decV: DecodeFn<V>, s: seq<Byte>, p: nat): (r: DecodeResult<seq<(K, V)>>)
    ensures Advances(r, p, |s|)
  {
    var len :- ReadLength(s, p, MAP);
    match len.value
    case Definite(n) => DecodeItems(PairDecoder(decK, decV), s, len.next, n)
    case Indefinite => DecodeUntilBreak(PairDecoder(decK, decV), s, len.next)
  }

  lemma DecodeMapDefinite<K(!new), V(!new)>(encK: EncodeFn<K>, decK: DecodeFn<K>, encV: EncodeFn<V>, decV: DecodeFn<V>,
                                             entries: seq<(K, V)>, s: seq<Byte>, p: nat)
    requires Sound(encK, decK) && Sound(encV, decV) && |s| < U64_LIMIT && IsAt(s, p, EncodeMap(encK, encV, entries))
    ensures DecodeMap(decK, decV, s, p) == Ok(Decoded(entries, p + |EncodeMap(encK, encV, entries)|))
  {
    PairSound(encK, decK, encV, decV);
    DecodeCounted(MAP, PairEncoder(encK, encV), PairDecoder(decK, decV), entries, s, p);
  }

  lemma DecodeMapIndefinite<K(!new), V(!new)>(encK: EncodeFn<K>, decK: DecodeFn<K>, encV: EncodeFn<V>, decV: DecodeFn<V>,
                                               entries: seq<(K, V)>, s: seq<Byte>, p: nat)
    requires Sound(encK, decK) && Sound(encV, decV) && |s| < U64_LIMIT && IsAt(s, p, EncodeMapIndef(encK, encV, entries))
    ensures DecodeMap(decK, decV, s, p) == Ok(Decoded(entries, p + |EncodeMapIndef(encK, encV, entries)|))
  {
    PairSound(encK, decK, encV, decV);
    var body := ItemsBytes(PairEncoder(encK, encV), entries) + [BREAK];
    assert EncodeMapIndef(encK, encV, entries) == [IndefiniteHead(MAP)] + body;
    IsAtPrefix(s, p, [IndefiniteHead(MAP)], body);
    ReadLengthIndefinite(s, p, MAP);
    DecodeUntilBreakRoundTrip(PairEncoder(encK, encV), PairDecoder(decK, decV), entries, s, p + 1);
  }

  /** The first byte of each encoding, and what `datatype()` makes of it. */
  lemma MapFramingTypes<K, V>(encK: EncodeFn<K>, encV: EncodeFn<V>, entries: seq<(K, V)>)
    ensures EncodeMap(encK, encV, entries)[0] == MAP * 32 + InfoOf(Shortest(AsU64(|entries|)), AsU64(|entries|))
    ensures TypeOf(EncodeMap(encK, encV, entries)[0]) == Map
    ensures EncodeMapIndef(encK, encV, entries)[0] == IndefiniteHead(MAP) && TypeOf(IndefiniteHead(MAP)) == MapIndef
  {
  }

  lemma ArrayFramingTypes<T>(enc: EncodeFn<T>, xs: seq<T>)
    ensures EncodeArray(enc, xs)[0] == ARRAY * 32 + InfoOf(Shortest(AsU64(|xs|)), AsU64(|xs|))
    ensures TypeOf(EncodeArray(enc, xs)[0]) == Array
    ensures EncodeArrayIndef(enc, xs)[0] == IndefiniteHead(ARRAY) && TypeOf(IndefiniteHead(ARRAY)) == ArrayIndef
  {
  }

  /** `datatype()` tells the two length forms of a map, and of an array, apart by the initial byte alone. */
  lemma TypeOfFraming(b: Byte)
    ensures TypeOf(b) == MapIndef <==> b == IndefiniteHead(MAP)
    ensures TypeOf(b) == ArrayIndef <==> b == IndefiniteHead(ARRAY)
  {
  }

  // ------------------------------------------------------------------------- skip

  /**
   * `skip()`: the position after the one well-formed data item at `p`, whatever its type
   * (RFC 8949 appendix C).  Arrays and indefinite maps are walked item by item; text
   * strings are not checked for UTF-8.
   */
  function Skip(s: seq<Byte>, p: nat): (r: Result<nat, Error>)
    ensures r.Ok? ==> p < r.value <= |s|
    decreases |s| - p, 0
  {
    var h :- ReadHead(s, p);
    if h.info == INDEFINITE then
      if h.major == BYTE_STRING || h.major == TEXT_STRING then SkipChunks(s, h.next, h.major)
      else if h.major == ARRAY || h.major == MAP then SkipUntilBreak(s, h.next)
      else Err(Invalid)
    else if h.major == BYTE_STRING || h.major == TEXT_STRING then
      if h.next + h.arg <= |s| then Ok(h.next + h.arg) else Err(Invalid)
    else if h.major == ARRAY then SkipN(s, h.next, h.arg)
    else if h.major == MAP then SkipN(s, h.next, 2 * h.arg)
    else if h.major == TAG then Skip(s, h.next)
    else Ok(h.next)
  }

  /** The position after `n` consecutive data items. */
  function SkipN(s: seq<Byte>, q: nat, n: nat): (r: Result<nat, Error>)
    requires q <= |s|
    ensures r.Ok? ==> q <= r.value <= |s| && (n > 0 ==> q < r.value)
    decreases |s| - q, n + 1
  {
    if n == 0 then Ok(q)
    else
      var e :- Skip(s, q);
      SkipN(s, e, n - 1)
  }

  /** The position after the data items up to and including a break code. */
  function SkipUntilBreak(s: seq<Byte>, q: nat): (r: Result<nat, Error>)
    ensures r.Ok? ==> q < r.value <= |s|
    decreases |s| - q, 1
  {
    if q >= |s| then Err(Invalid)
    else if s[q] == BREAK then Ok(q + 1)
    else
      var e :- Skip(s, q);
      SkipUntilBreak(s, e)
  }

  /** The chunks of an indefinite-length string: definite strings of the same major type, then a break. */
  function SkipChunks(s: seq<Byte>, q: nat, major: nat): (r: Result<nat, Error>)
    ensures r.Ok? ==> q < r.value <= |s|
    decreases |s| - q
  {
    if q >= |s| then Err(Invalid)
    else if s[q] == BREAK then Ok(q + 1)
    else
      var h :- ReadHead(s, q);
      if h.major != major || h.info == INDEFINITE || h.next + h.arg > |s| then Err(Invalid)
      else SkipChunks(s, h.next + h.arg, major)
  }

  /** `skip()` steps over exactly what `enc` writes, at any position. */
  ghost predicate Skips<T(!new)>(enc: EncodeFn<T>) {
    forall x, s: seq<Byte>, p: nat {:trigger IsAt(s, p, enc(x))} :: |s| < U64_LIMIT && IsAt(s, p, enc(x)) ==> Skip(s, p) == Ok(p + |enc(x)|)
  }

  lemma SkipHead(s: seq<Byte>, p: nat, major: nat, n: UInt64)
    requires (major == UNSIGNED || major == NEGATIVE) && IsAt(s, p, Head(major, n))
    ensures Skip(s, p) == Ok(p + |Head(major, n)|)
  {
    ReadHeadShortest(s, p, major, n);
  }

  lemma U64Skips()
    ensures Skips(U64Encoder)
  {
    forall x: UInt64, s: seq<Byte>, p: nat | |s| < U64_LIMIT && IsAt(s, p, U64Encoder(x))
      ensures Skip(s, p) == Ok(p + |U64Encoder(x)|)
    {
      SkipHead(s, p, UNSIGNED, x);
    }
  }

  lemma U32Skips()
    ensures Skips(U32Encoder)
  {
    forall x: UInt32, s: seq<Byte>, p: nat | |s| < U64_LIMIT && IsAt(s, p, U32Encoder(x))
      ensures Skip(s, p) == Ok(p + |U32Encoder(x)|)
    {
      SkipHead(s, p, UNSIGNED, x);
    }
  }

  lemma Int64Skips()
    ensures Skips(Int64Encoder)
  {
    forall x: Int64, s: seq<Byte>, p: nat | |s| < U64_LIMIT && IsAt(s, p, Int64Encoder(x))
      ensures Skip(s, p) == Ok(p + |Int64Encoder(x)|)
    {
      if x >= 0 {
        SkipHead(s, p, UNSIGNED, x);
      } else {
        SkipHead(s, p, NEGATIVE, -1 - x);
      }
    }
  }

  lemma SkipItemsStep(s: seq<Byte>, q: nat, n: nat, e: nat, r: nat)
    requires q <= |s| && n > 0 && Skip(s, q) == Ok(e) && SkipN(s, e, n - 1) == Ok(r)
    ensures SkipN(s, q, n) == Ok(r)
  {
  }

  lemma {:induction false} SkipItems<T(!new)>(enc: EncodeFn<T>, xs: seq<T>, s: seq<Byte>, p: nat)
    requires Skips(enc) && |s| < U64_LIMIT && IsAt(s, p, ItemsBytes(enc, xs))
    ensures SkipN(s, p, |xs|) == Ok(p + |ItemsBytes(enc, xs)|)
  {
    if xs != [] {
      var first, rest := enc(xs[0]), ItemsBytes(enc, xs[1..]);
      assert ItemsBytes(enc, xs) == first + rest;
      IsAtPrefix(s, p, first, rest);
      SkipItems(enc, xs[1..], s, p + |first|);
      SkipItemsStep(s, p, |xs|, p + |first|, p + |first| + |rest|);
    }
  }

  lemma SkipArrayAt<T(!new)>(enc: EncodeFn<T>, xs: seq<T>, s: seq<Byte>, p: nat)
    requires Skips(enc) && (forall x :: StartsItem(enc(x))) && |s| < U64_LIMIT && IsAt(s, p, EncodeArray(enc, xs))
    ensures Skip(s, p) == Ok(p + |EncodeArray(enc, xs)|)
  {
    var head := Head(ARRAY, AsU64(|xs|));
    IsAtPrefix(s, p, head, ItemsBytes(enc, xs));
    ReadHeadShortest(s, p, ARRAY, AsU64(|xs|));
    ItemsBytesLength(enc, xs);
    SkipItems(enc, xs, s, p + |head|);
  }

  lemma ArraySkips<T(!new)>(enc: EncodeFn<T>)
    requires Skips(enc) && forall x :: StartsItem(enc(x))
    ensures Skips(ArrayEncoder(enc))
  {
    forall xs: seq<T>, s: seq<Byte>, p: nat | |s| < U64_LIMIT && IsAt(s, p, ArrayEncoder(enc)(xs))
      ensures Skip(s, p) == Ok(p + |ArrayEncoder(enc)(xs)|)
    {
      SkipArrayAt(enc, xs, s, p);
    }
  }

  // ------------------------------------------------------------------------ writer

  /** The engine's writer: everything encoded so far. Writing to memory cannot fail. */
  class Encoder {
    var written: seq<Byte>

    constructor ()
      ensures written == []
    {
      written := [];
    }

    /** `write_all`, and every typed write, which appends its bytes. */
    method WriteAll(bytes: seq<Byte>)
      modifies this
      ensures written == old(written) + bytes
    {
      written := written + bytes;
    }

    /** Encodes each item of `xs` in turn. */
    method WriteItems<T>(enc: EncodeFn<T>, xs: seq<T>)
      modifies this
      ensures written == old(written) + ItemsBytes(enc, xs)
    {
      for i := 0 to |xs|
        invariant written == old(written) + ItemsBytes(enc, xs[..i])
      {
        ItemsBytesSnoc(enc, xs, i);
        WriteAll(enc(xs[i]));
      }
      assert xs[..|xs|] == xs;
    }
  }
}
