/**
 * Envelopes around one inner value.  `CborWrap` writes the value's encoding inside a
 * byte string marked with tag 24 ("encoded CBOR data item"); `TagWrap` writes a fixed
 * tag in front of the value.  Neither decoder looks at the tag number.
 */
module Envelopes {
  import opened Wrappers
  import opened Cbor

  /** The constructor wraps; `unwrap` and `deref` are the field. */
  datatype CborWrap<T> = CborWrap(inner: T)
  {
    /**
     * Decoding: the inner value decoded from the start of the tagged byte string's
     * contents; bytes of the string after the inner value are ignored.
     */
    static function Decode(dec: DecodeFn<T>, s: seq<Byte>, p: nat): (r: DecodeResult<CborWrap<T>>)
      ensures Advances(r, p, |s|)
      ensures r.Ok? <==> Payload(s, p).Ok? && dec(Payload(s, p).value.value, 0).Ok?
      ensures r.Ok? ==> r.value.next == Payload(s, p).value.next
      ensures r.Ok? ==> r.value.value.inner == dec(Payload(s, p).value.value, 0).value.value
    {
      var cbor :- Payload(s, p);
      var wrapped :- dec(cbor.value, 0);
      Ok(Decoded(CborWrap(wrapped.value), cbor.next))
    }

    /** Tag 24, the two bytes `D8 18`, then a byte string holding the inner value's encoding. */
    function Encoding(enc: EncodeFn<T>): (r: seq<Byte>)
      ensures r == [0xD8, 0x18] + EncodeBytes(enc(inner))
    {
      EncodeTag(TAG_ENCODED_CBOR) + EncodeBytes(enc(inner))
    }
  }

  /** A tag of any number, then the contents of a definite byte string. */
  function Payload(s: seq<Byte>, p: nat): (r: DecodeResult<seq<Byte>>)
    ensures Advances(r, p, |s|)
  {
    var tag :- ReadTag(s, p);
    ReadBytes(s, tag.next)
  }

  /** Decoding gives back the wrapped value from any tag number in front of the byte string. */
  lemma CborWrapIgnoresTag<T(!new)>(enc: EncodeFn<T>, dec: DecodeFn<T>, x: T, t: UInt64, s: seq<Byte>, p: nat)
    requires Sound(enc, dec) && |s| < U64_LIMIT && IsAt(s, p, EncodeTag(t) + EncodeBytes(enc(x)))
    ensures CborWrap.Decode(dec, s, p) == Ok(Decoded(CborWrap(x), p + |EncodeTag(t) + EncodeBytes(enc(x))|))
  {
    PayloadRoundTrip(s, p, t, enc(x));
    IsAtWhole(enc(x));
    SoundAt(enc, dec, x, enc(x), 0);
  }

  /** Any tag, then a definite byte string: the payload is the string's contents, ending after it. */
  lemma PayloadRoundTrip(s: seq<Byte>, p: nat, t: UInt64, b: seq<Byte>)
    requires |s| < U64_LIMIT && IsAt(s, p, EncodeTag(t) + EncodeBytes(b))
    ensures Payload(s, p) == Ok(Decoded(b, p + |EncodeTag(t) + EncodeBytes(b)|))
    ensures |b| < U64_LIMIT
  {
    IsAtPrefix(s, p, EncodeTag(t), EncodeBytes(b));
    ReadTagRoundTrip(s, p, t);
    ReadBytesRoundTrip(s, p + |EncodeTag(t)|, b);
  }

  lemma CborWrapDecodeEncoding<T(!new)>(w: CborWrap<T>, enc: EncodeFn<T>, dec: DecodeFn<T>, s: seq<Byte>, p: nat)
    requires Sound(enc, dec) && |s| < U64_LIMIT && IsAt(s, p, w.Encoding(enc))
    ensures CborWrap.Decode(dec, s, p) == Ok(Decoded(w, p + |w.Encoding(enc)|))
  {
    CborWrapIgnoresTag(enc, dec, w.inner, TAG_ENCODED_CBOR, s, p);
  }

  /** The constructor is `new` and the conversion from the inner value; `deref` is the field. */
  datatype TagWrap<I> = TagWrap(inner: I)
  {
    /** Decoding: any tag, then the inner value. */
    static function Decode(dec: DecodeFn<I>, s: seq<Byte>, p: nat): (r: DecodeResult<TagWrap<I>>)
      ensures Advances(r, p, |s|)
      ensures r.Ok? <==> ReadTag(s, p).Ok? && dec(s, ReadTag(s, p).value.next).Ok?
      ensures r.Ok? ==> Ok(Decoded(r.value.value.inner, r.value.next)) == dec(s, ReadTag(s, p).value.next)
    {
      var t :- ReadTag(s, p);
      var x :- dec(s, t.next);
      Ok(Decoded(TagWrap(x.value), x.next))
    }

    /** The fixed tag `tag` of the type, then the inner value. */
    function Encoding(tag: UInt64, enc: EncodeFn<I>): seq<Byte> {
      EncodeTag(tag) + enc(inner)
    }
  }

  /** Whatever tag the bytes carry, the same inner value comes back. */
  lemma TagWrapIgnoresTag<I(!new)>(w: TagWrap<I>, enc: EncodeFn<I>, dec: DecodeFn<I>, t: UInt64, s: seq<Byte>, p: nat)
    requires Sound(enc, dec) && |s| < U64_LIMIT && IsAt(s, p, w.Encoding(t, enc))
    ensures TagWrap.Decode(dec, s, p) == Ok(Decoded(w, p + |w.Encoding(t, enc)|))
  {
    IsAtPrefix(s, p, EncodeTag(t), enc(w.inner));
    ReadTagRoundTrip(s, p, t);
    SoundAt(enc, dec, w.inner, s, p + |EncodeTag(t)|);
  }
}
