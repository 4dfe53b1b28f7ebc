/**
 * Integer wrappers.  `AnyUInt` is an unsigned integer that is meant to remember the
 * width of the head it was written with; `PositiveCoin` and `NonZeroInt` are
 * integers with one excluded value.
 */
module Integers {
  import opened Wrappers
  import opened Cbor

  /** An unsigned integer together with the width of its head. */
  datatype AnyUInt = MajorByte(b: Byte) | U8(x8: Byte) | U16(x16: UInt16) | U32(x32: UInt32) | U64(x64: UInt64)
  {
    /** `u64::from`: the numeric value, whatever the width. */
    function ToU64(): UInt64 {
      match this
      case MajorByte(x) => x
      case U8(x) => x
      case U16(x) => x
      case U32(x) => x
      case U64(x) => x
    }

    /** The width `Encode` writes the value with. */
    function HeadWidth(): Width {
      match this
      case MajorByte(_) => Inline
      case U8(_) => OneByte
      case U16(_) => TwoBytes
      case U32(_) => FourBytes
      case U64(_) => EightBytes
    }

    /**
     * The bytes `Encode` writes: `MajorByte(x)` the single byte `x`; the others the byte
     * 24, 25, 26 or 27 followed by the value in 1, 2, 4 or 8 big-endian bytes.
     */
    function Encoding(): seq<Byte> {
      match this
      case MajorByte(x) => [x]
      case U8(x) => [24] + BigEndian(x, 1)
      case U16(x) => [25] + BigEndian(x, 2)
      case U32(x) => [26] + BigEndian(x, 4)
      case U64(x) => [27] + BigEndian(x, 8)
    }

    method Encode(e: Encoder)
      modifies e
      ensures e.written == old(e.written) + Encoding()
    {
      match this
      case MajorByte(x) => e.WriteAll([x]);
      case U8(x) => e.WriteAll([24] + BigEndian(x, 1));
      case U16(x) => e.WriteAll([25] + BigEndian(x, 2));
      case U32(x) => e.WriteAll([26] + BigEndian(x, 4));
      case U64(x) => e.WriteAll([27] + BigEndian(x, 8));
    }

    /**
     * Decoding as written: classified by `datatype()`, which puts every head up to a
     * one-byte argument in one class; that class then becomes `MajorByte` or `U8` by the
     * value read, not by the head's width.
     */
    static function Decode(s: seq<Byte>, p: nat): (r: DecodeResult<AnyUInt>)
      ensures Advances(r, p, |s|)
      ensures r.Ok? ==> ByValue(r.value.value)
      ensures r.Ok? <==> DecodeU64(s, p).Ok?
      ensures r.Ok? ==> DecodeU64(s, p) == Ok(Decoded(r.value.value.ToU64(), r.value.next))
      ensures r.Ok? ==> (r.value.value.MajorByte? || r.value.value.U8? <==> s[p] <= 24)
    {
      var t :- DataType(s, p);
      UnsignedClassesAgree(s, p);
      match t
      case Unsigned8 =>
        var d :- DecodeUnsigned(s, p, 0x100);
        if d.value <= 0x17 then Ok(Decoded(MajorByte(d.value), d.next)) else Ok(Decoded(U8(d.value), d.next))
      case Unsigned16 =>
        var d :- DecodeUnsigned(s, p, 0x1_0000);
        Ok(Decoded(U16(d.value), d.next))
      case Unsigned32 =>
        var d :- DecodeUnsigned(s, p, 0x1_0000_0000);
        Ok(Decoded(U32(d.value), d.next))
      case Unsigned64 =>
        var d :- DecodeUnsigned(s, p, U64_LIMIT);
        Ok(Decoded(U64(d.value), d.next))
      case _ => Err(Invalid)
    }

    /**
     * The decoding the type's purpose calls for: classified by the head's additional
     * information, so that the width written is the width kept.
     */
    static function DecodeByHead(s: seq<Byte>, p: nat): (r: DecodeResult<AnyUInt>)
      ensures Advances(r, p, |s|)
      ensures r.Ok? ==> r.value.value.Encoding() == s[p..r.value.next]
    {
      var h :- ReadHead(s, p);
      if h.major != UNSIGNED || h.info == INDEFINITE then Err(Invalid)
      else
        ReadHeadIsAt(s, p, h);
        var a := if h.info < 24 then MajorByte(h.arg)
          else if h.info == 24 then U8(h.arg)
          else if h.info == 25 then U16(h.arg)
          else if h.info == 26 then U32(h.arg)
          else U64(h.arg);
        Ok(Decoded(a, h.next))
    }
  }

  /** The values the as-written decoder can produce: `MajorByte` below 24, `U8` from 24 up. */
  predicate ByValue(a: AnyUInt) {
    match a
    case MajorByte(x) => x <= 0x17
    case U8(x) => x >= 0x18
    case _ => true
  }

  /** The head a successful read consumed is the head of its width. */
  /** A head `DecodeU64` accepts is in one of the four unsigned classes, and within that class's limit. */
  lemma UnsignedClassesAgree(s: seq<Byte>, p: nat)
    requires p < |s|
    ensures DecodeU64(s, p).Ok? ==>
      TypeOf(s[p]) == Unsigned8 || TypeOf(s[p]) == Unsigned16 || TypeOf(s[p]) == Unsigned32 || TypeOf(s[p]) == Unsigned64
    ensures DecodeU64(s, p).Ok? && TypeOf(s[p]) == Unsigned8 ==> DecodeUnsigned(s, p, 0x100).Ok?
    ensures DecodeU64(s, p).Ok? && TypeOf(s[p]) == Unsigned16 ==> DecodeUnsigned(s, p, 0x1_0000).Ok?
    ensures DecodeU64(s, p).Ok? && TypeOf(s[p]) == Unsigned32 ==> DecodeUnsigned(s, p, 0x1_0000_0000).Ok?
  {
    if DecodeU64(s, p).Ok? {
      ReadHeadIsAt(s, p, ReadHead(s, p).value);
    }
  }

  lemma ReadHeadIsAt(s: seq<Byte>, p: nat, h: HeadInfo)
    requires ReadHead(s, p) == Ok(h) && h.info != INDEFINITE && h.major == UNSIGNED
    ensures h.info < 24 ==> h.next == p + 1 && s[p] == h.arg
    ensures 24 <= h.info <= 27 ==> h.next == p + 1 + ArgumentSize(h.info) && s[p] == h.info
    ensures 24 <= h.info <= 27 ==> s[p..h.next] == [s[p]] + BigEndian(h.arg, ArgumentSize(h.info))
    ensures h.info == 24 ==> h.arg < 0x100
    ensures h.info == 25 ==> h.arg < 0x1_0000
    ensures h.info == 26 ==> h.arg < 0x1_0000_0000
  {
    if 24 <= h.info <= 27 {
      var bytes := s[p + 1..h.next];
      FromBigEndianBound(bytes);
      assert Pow256(1) == 0x100 && Pow256(2) == 0x1_0000 && Pow256(4) == 0x1_0000_0000;
      BigEndianInverse(bytes);
      assert s[p..h.next] == [s[p]] + bytes;
    }
  }

  /** Reading big-endian bytes and writing the value back gives the same bytes. */
  lemma {:induction false} BigEndianInverse(b: seq<Byte>)
    ensures BigEndian(FromBigEndian(b), |b|) == b
  {
    if b != [] {
      var front := b[..|b| - 1];
      BigEndianInverse(front);
      FromBigEndianBound(front);
      var n := FromBigEndian(b);
      assert n / 256 == FromBigEndian(front);
      assert n % 256 == b[|b| - 1];
      assert b == front + [b[|b| - 1]];
    }
  }

  /** For a `MajorByte` below 24, and for every other width, `Encoding` is the RFC 8949 head of that width. */
  lemma EncodingIsHead(a: AnyUInt)
    requires !a.MajorByte? || a.b < 24
    ensures Fits(a.HeadWidth(), a.ToU64())
    ensures a.Encoding() == HeadBytes(UNSIGNED, a.HeadWidth(), a.ToU64())
  {
  }

  /** As written, a value decodes back to itself exactly when it is one the decoder can produce. */
  lemma DecodeEncodingByValue(a: AnyUInt, s: seq<Byte>, p: nat)
    requires IsAt(s, p, a.Encoding())
    ensures AnyUInt.Decode(s, p) == Ok(Decoded(a, p + |a.Encoding()|)) <==> ByValue(a)
  {
    if ByValue(a) {
      EncodingIsHead(a);
      ReadHeadBytes(s, p, UNSIGNED, a.HeadWidth(), a.ToU64());
      assert s[p] == s[p..p + |a.Encoding()|][0] == a.Encoding()[0];
    }
  }

  /** `18 05`: the one-byte form of 5 comes back as `MajorByte(5)`, which is written `05`. */
  /**
   * Every explicit one-byte head holding a value below 24, `18 00` to `18 17`, is read
   * as written as a `MajorByte`, and by head as the `U8` it was written as.
   */
  lemma OneByteHeadReadAsMajorByte(x: Byte, s: seq<Byte>, p: nat)
    requires x < 24 && IsAt(s, p, [24, x])
    ensures AnyUInt.Decode(s, p) == Ok(Decoded(MajorByte(x), p + 2))
    ensures AnyUInt.DecodeByHead(s, p) == Ok(Decoded(U8(x), p + 2))
  {
    assert s[p] == [24, x][0] && s[p + 1] == [24, x][1];
    assert s[p + 1..p + 2] == [x];
    assert FromBigEndian([x]) == x by {
      assert [x][..0] == [];
    }
    assert ReadHead(s, p) == Ok(HeadInfo(UNSIGNED, 24, x, p + 2));
  }

  lemma WidthLostExample()
    ensures AnyUInt.Decode([0x18, 0x05], 0) == Ok(Decoded(MajorByte(5), 2))
    ensures MajorByte(5).Encoding() == [0x05]
    ensures AnyUInt.DecodeByHead([0x18, 0x05], 0) == Ok(Decoded(U8(5), 2))
  {
    var s: seq<Byte> := [0x18, 0x05];
    assert s[1..2] == [0x05];
    assert FromBigEndian([0x05]) == 5 by {
      assert [0x05][..0] == [];
    }
    assert ReadHead(s, 0) == Ok(HeadInfo(UNSIGNED, 24, 5, 2));
  }

  /** Classifying by head, every value with a well-formed encoding decodes back to itself. */
  lemma DecodeByHeadEncoding(a: AnyUInt, s: seq<Byte>, p: nat)
    requires !a.MajorByte? || a.b < 24
    requires IsAt(s, p, a.Encoding())
    ensures AnyUInt.DecodeByHead(s, p) == Ok(Decoded(a, p + |a.Encoding()|))
  {
    EncodingIsHead(a);
    ReadHeadBytes(s, p, UNSIGNED, a.HeadWidth(), a.ToU64());
  }

  /** A nonzero amount, written as a plain unsigned integer. */
  datatype PositiveCoin = PositiveCoin(value: UInt64)
  {
    /** `try_from`: 0 is refused and handed back. */
    static function TryFrom(v: UInt64): (r: Result<PositiveCoin, UInt64>)
      ensures r.Err? <==> v == 0
      ensures r.Err? ==> r.error == 0
      ensures r.Ok? ==> r.value.ToU64() == v
    {
      if v == 0 then Err(v) else Ok(PositiveCoin(v))
    }

    /** `u64::from`. */
    function ToU64(): UInt64 {
      value
    }

    /** The derived transparent decoding, as written: any `u64`, 0 included. */
    static function Decode(s: seq<Byte>, p: nat): (r: DecodeResult<PositiveCoin>)
      ensures Advances(r, p, |s|)
      ensures r.Ok? <==> DecodeU64(s, p).Ok?
      ensures r.Ok? ==> r.value.next == DecodeU64(s, p).value.next && r.value.value.ToU64() == DecodeU64(s, p).value.value
    {
      var d :- DecodeU64(s, p);
      Ok(Decoded(PositiveCoin(d.value), d.next))
    }

    /** The decoding the type's range calls for: `Decode`, refusing 0 as `try_from` does. */
    static function DecodeChecked(s: seq<Byte>, p: nat): (r: DecodeResult<PositiveCoin>)
      ensures Advances(r, p, |s|)
      ensures r.Ok? ==> r.value.value.ToU64() >= 1
      ensures r.Ok? <==> Decode(s, p).Ok? && Decode(s, p).value.value.ToU64() != 0
      ensures r.Ok? ==> r == Decode(s, p)
    {
      var d :- Decode(s, p);
      if d.value.value == 0 then Err(Invalid) else Ok(d)
    }

    function Encoding(): seq<Byte> {
      Head(UNSIGNED, value)
    }
  }

  /** `00` decodes as a `PositiveCoin` holding 0, which `try_from` refuses. */
  lemma PositiveCoinAcceptsZero()
    ensures PositiveCoin.Decode([0x00], 0) == Ok(Decoded(PositiveCoin(0), 1))
    ensures PositiveCoin.TryFrom(0) == Err(0)
    ensures PositiveCoin.DecodeChecked([0x00], 0).Err?
  {
    assert ReadHead([0x00], 0) == Ok(HeadInfo(UNSIGNED, 0, 0, 1));
  }

  /** Every coin `try_from` accepts survives the checked decoding of its encoding. */
  lemma PositiveCoinDecodeEncoding(v: UInt64, s: seq<Byte>, p: nat)
    requires PositiveCoin.TryFrom(v).Ok? && IsAt(s, p, PositiveCoin.TryFrom(v).value.Encoding())
    ensures PositiveCoin.DecodeChecked(s, p) == Ok(Decoded(PositiveCoin.TryFrom(v).value, p + |Head(UNSIGNED, v)|))
  {
    ReadHeadShortest(s, p, UNSIGNED, v);
  }

  /** A nonzero `i64`. */
  datatype NonZeroInt = NonZeroInt(value: Int64)
  {
    /** `try_from`: 0 is refused and handed back. */
    static function TryFrom(v: Int64): (r: Result<NonZeroInt, Int64>)
      ensures r.Err? <==> v == 0
      ensures r.Err? ==> r.error == 0
      ensures r.Ok? ==> r.value.ToI64() == v
    {
      if v == 0 then Err(v) else Ok(NonZeroInt(v))
    }

    /** `i64::from`. */
    function ToI64(): Int64 {
      value
    }

    /** Decoding: an `i64`, with 0 refused. */
    static function Decode(s: seq<Byte>, p: nat): (r: DecodeResult<NonZeroInt>)
      ensures Advances(r, p, |s|)
      ensures r.Ok? ==> r.value.value.ToI64() != 0
      ensures r.Ok? <==> DecodeInt64(s, p).Ok? && DecodeInt64(s, p).value.value != 0
      ensures r.Ok? ==> r.value.value.ToI64() == DecodeInt64(s, p).value.value && r.value.next == DecodeInt64(s, p).value.next
    {
      var n :- DecodeInt64(s, p);
      if n.value == 0 then Err(Invalid) else Ok(Decoded(NonZeroInt(n.value), n.next))
    }

    function Encoding(): seq<Byte> {
      EncodeInt64(value)
    }
  }

  lemma NonZeroIntDecodeEncoding(v: Int64, s: seq<Byte>, p: nat)
    requires v != 0 && IsAt(s, p, NonZeroInt(v).Encoding())
    ensures NonZeroInt.Decode(s, p) == Ok(Decoded(NonZeroInt(v), p + |NonZeroInt(v).Encoding()|))
  {
    DecodeInt64At(v, s, p);
  }
}
