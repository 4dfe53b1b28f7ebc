/**
 * Raw capture.  `KeepRaw` decodes a value and keeps the exact bytes it was decoded
 * from, so that a value that is not changed is written back as it was read; changing
 * the value drops the bytes.  `AnyCbor` keeps one data item as bytes, undecoded.
 */
module Raw {
  import opened Wrappers
  import opened Cbor

  /** A decoded value and the bytes it came from; no bytes means "encode the value". */
  class KeepRaw<T> {
    var raw: seq<Byte>
    var inner: T

    /** `From`: a value with no original bytes. */
    constructor From(val: T)
      ensures raw == [] && inner == val
    {
      raw := [];
      inner := val;
    }

    constructor Captured(bytes: seq<Byte>, val: T)
      ensures raw == bytes && inner == val
    {
      raw := bytes;
      inner := val;
    }

    /** `raw_cbor`. */
    function RawCbor(): seq<Byte>
      reads this
    {
      raw
    }

    /** `unwrap` and `deref`. */
    function Unwrap(): T
      reads this
    {
      inner
    }

    method ClearRaw()
      modifies this
      ensures raw == [] && inner == old(inner)
    {
      raw := [];
    }

    /** `to_owned`: a copy holding the same bytes and value. */
    method ToOwned() returns (r: KeepRaw<T>)
      ensures fresh(r) && r.raw == raw && r.inner == inner
    {
      r := new KeepRaw.Captured(raw, inner);
    }

    /** `deref_mut`, followed by the caller's change `mutation` to the value: the old bytes are dropped. */
    method DerefMut(mutation: T -> T)
      modifies this
      ensures raw == [] && inner == mutation(old(inner))
    {
      ClearRaw();
      inner := mutation(inner);
    }

    /** The bytes `Encode` writes: the original bytes if there are any, else the value's encoding. */
    function Encoding(enc: EncodeFn<T>): seq<Byte>
      reads this
    {
      if raw == [] then enc(inner) else raw
    }

    method Encode(e: Encoder, enc: EncodeFn<T>)
      modifies e
      ensures e.written == old(e.written) + Encoding(enc)
    {
      if RawCbor() == [] {
        e.WriteAll(enc(inner));
      } else {
        e.WriteAll(RawCbor());
      }
    }

    /**
     * Decoding: the inner value, and as `raw` exactly the bytes from the start position
     * to the position the inner decoder stopped at.
     */
    static method Decode(dec: DecodeFn<T>, s: seq<Byte>, p: nat) returns (r: Result<KeepRaw<T>, Error>, next: nat)
      ensures r.Err? <==> dec(s, p).Err?
      ensures r.Ok? ==> fresh(r.value) && dec(s, p) == Ok(Decoded(r.value.inner, next))
      ensures r.Ok? ==> p < next <= |s| && r.value.raw == s[p..next]
    {
      var start := p;
      var d := dec(s, p);
      if d.Err? {
        return Err(d.error), p;
      }
      next := d.value.next;
      var k := new KeepRaw.Captured(s[start..next], d.value.value);
      r := Ok(k);
    }
  }

  /**
   * Decoding into a `KeepRaw` and encoding it again writes exactly the bytes the value
   * was decoded from, whatever the value's own encoder would write.
   */
  method ReEncode<T>(dec: DecodeFn<T>, enc: EncodeFn<T>, s: seq<Byte>, p: nat) returns (decoded: bool, encoded: seq<Byte>)
    ensures decoded <==> dec(s, p).Ok?
    ensures decoded ==> encoded == s[p..dec(s, p).value.next]
  {
    var r, next := KeepRaw.Decode(dec, s, p);
    decoded := r.Ok?;
    encoded := [];
    if decoded {
      var e := new Encoder();
      r.value.Encode(e, enc);
      encoded := e.written;
    }
  }

  /** `Set<KeepRaw<T>>` to `Set<T>` and the like: each value unwrapped, in order. */
  function UnwrapAll<T>(xs: seq<KeepRaw<T>>): (r: seq<T>)
    reads set i | 0 <= i < |xs| :: xs[i]
    ensures |r| == |xs| && forall i :: 0 <= i < |xs| ==> r[i] == xs[i].inner
  {
    if xs == [] then [] else [xs[0].Unwrap()] + UnwrapAll(xs[1..])
  }

  /** `9F0102FF`, an indefinite array of 1 and 2, as a `Vec<u32>`. */
  lemma DecodeIndefiniteExample()
    ensures ArrayDecoder(U32Decoder)([0x9F, 0x01, 0x02, 0xFF], 0) == Ok(Decoded([1, 2], 4))
  {
    var s: seq<Byte> := [0x9F, 0x01, 0x02, 0xFF];
    assert ReadHead(s, 1) == Ok(HeadInfo(UNSIGNED, 1, 1, 2));
    assert ReadHead(s, 2) == Ok(HeadInfo(UNSIGNED, 2, 2, 3));
    assert U32Decoder(s, 1) == Ok(Decoded(1, 2));
    assert U32Decoder(s, 2) == Ok(Decoded(2, 3));
    assert DecodeUntilBreak(U32Decoder, s, 3) == Ok(Decoded([], 4));
    DecodeUntilBreakStep(U32Decoder, s, 2, 2, 3, [], 4);
    assert [2] + [] == [2];
    DecodeUntilBreakStep(U32Decoder, s, 1, 1, 2, [2], 4);
    assert [1] + [2] == [1, 2];
  }

  /** The definite arrays `820102` and `83010203`. */
  lemma EncodeArrayExamples()
    ensures EncodeArray(U32Encoder, [1, 2]) == [0x82, 0x01, 0x02]
    ensures EncodeArray(U32Encoder, [1, 2, 3]) == [0x83, 0x01, 0x02, 0x03]
  {
    assert ItemsBytes(U32Encoder, [3]) == [3];
    assert ItemsBytes(U32Encoder, [2, 3]) == [2, 3];
    assert ItemsBytes(U32Encoder, [2]) == [2];
  }

  /** Decoding `9F0102FF` keeps the value `[1, 2]` and all four original bytes. */
  method RetainsOriginal() returns (inner: seq<UInt32>, raw: seq<Byte>)
    ensures inner == [1, 2] && raw == [0x9F, 0x01, 0x02, 0xFF]
  {
    DecodeIndefiniteExample();
    var r, next := KeepRaw.Decode(ArrayDecoder(U32Decoder), [0x9F, 0x01, 0x02, 0xFF], 0);
    inner, raw := r.value.Unwrap(), r.value.RawCbor();
  }

  /** A value built with `From` has no bytes, so `[1, 2]` is written as the definite array `820102`. */
  method FallsBackToEncode() returns (encoded: seq<Byte>)
    ensures encoded == [0x82, 0x01, 0x02]
  {
    var subject := new KeepRaw<seq<UInt32>>.From([1, 2]);
    EncodeArrayExamples();
    var e := new Encoder();
    subject.Encode(e, ArrayEncoder(U32Encoder));
    encoded := e.written;
  }

  /** Decoding `9F0102FF`, then pushing 3 through `deref_mut`, writes `83010203`, not the stale bytes. */
  method ClearsOriginalWhenMutated() returns (inner: seq<UInt32>, encoded: seq<Byte>)
    ensures inner == [1, 2, 3] && encoded == [0x83, 0x01, 0x02, 0x03]
  {
    DecodeIndefiniteExample();
    var r, next := KeepRaw.Decode(ArrayDecoder(U32Decoder), [0x9F, 0x01, 0x02, 0xFF], 0);
    var subject := r.value;
    subject.DerefMut((xs: seq<UInt32>) => xs + [3]);
    EncodeArrayExamples();
    var e := new Encoder();
    subject.Encode(e, ArrayEncoder(U32Encoder));
    inner, encoded := subject.Unwrap(), e.written;
  }

  /** One data item, kept as its bytes. */
  datatype AnyCbor = AnyCbor(inner: seq<Byte>)
  {
    /** `raw_bytes`, `unwrap` and `deref`. */
    function RawBytes(): seq<Byte> {
      inner
    }

    /** `from_encode`: the bytes of a value's encoding. */
    static function FromEncode<T>(enc: EncodeFn<T>, x: T): (r: AnyCbor)
      ensures r.RawBytes() == enc(x)
    {
      AnyCbor(enc(x))
    }

    /** `into_decode`: decodes a value from the start of the bytes; anything after it is ignored. */
    function IntoDecode<T>(dec: DecodeFn<T>): (r: Result<T, Error>)
      ensures r.Ok? <==> dec(inner, 0).Ok?
      ensures r.Ok? ==> r.value == dec(inner, 0).value.value
    {
      var d :- dec(inner, 0);
      Ok(d.value)
    }

    /** Decoding: skips one data item and keeps exactly the skipped bytes. */
    static function Decode(s: seq<Byte>, p: nat): (r: DecodeResult<AnyCbor>)
      ensures Advances(r, p, |s|)
      ensures r.Ok? <==> Skip(s, p).Ok?
      ensures r.Ok? ==> r.value.next == Skip(s, p).value && r.value.value.RawBytes() == s[p..r.value.next]
    {
      var end :- Skip(s, p);
      Ok(Decoded(AnyCbor(s[p..end]), end))
    }

    /** Encoding: the bytes, verbatim. */
    method Encode(e: Encoder)
      modifies e
      ensures e.written == old(e.written) + RawBytes()
    {
      e.WriteAll(RawBytes());
    }
  }

  /** A value survives `from_encode` followed by `into_decode`. */
  lemma IntoDecodeFromEncode<T(!new)>(enc: EncodeFn<T>, dec: DecodeFn<T>, x: T)
    requires Sound(enc, dec) && |enc(x)| < U64_LIMIT
    ensures AnyCbor.FromEncode(enc, x).IntoDecode(dec) == Ok(x)
  {
    IsAtWhole(enc(x));
    SoundAt(enc, dec, x, enc(x), 0);
  }

  /** Decoding an item gives what `from_encode` of its value gives, for any encoder `skip` can step over. */
  lemma DecodeFromEncode<T(!new)>(enc: EncodeFn<T>, x: T, s: seq<Byte>, p: nat)
    requires Skips(enc) && |s| < U64_LIMIT && IsAt(s, p, enc(x))
    ensures AnyCbor.Decode(s, p) == Ok(Decoded(AnyCbor.FromEncode(enc, x), p + |enc(x)|))
  {
  }
}
