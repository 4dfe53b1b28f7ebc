/**
 * `Set` and `NonEmptySet`: CBOR arrays that may be marked with tag 258 ("set").  The
 * tag is optional on input, any other tag is refused, and the tag is always written.
 * The items are kept in wire order; duplicates are not checked.
 */
module Sets {
  import opened Wrappers
  import opened Cbor
  import Raw

  /** The tag number that marks a set. */
  const TAG_SET: UInt64 := 258

  /**
   * The optional set tag, then the items as a `Vec`.  A tag other than 258 is an
   * "Unrecognised tag" error carrying the number found.
   */
  function DecodeTaggedArray<T>(dec: DecodeFn<T>, s: seq<Byte>, p: nat): (r: DecodeResult<seq<T>>)
    ensures Advances(r, p, |s|)
    ensures p >= |s| ==> r.Err?
    ensures p < |s| && TypeOf(s[p]) != Tag ==> r == DecodeArray(dec, s, p)
    ensures p < |s| && TypeOf(s[p]) == Tag && ReadTag(s, p).Ok? ==>
      var tag := ReadTag(s, p).value;
      r == if tag.value == TAG_SET then DecodeArray(dec, s, tag.next) else Err(UnrecognisedTag(tag.value))
  {
    var t :- DataType(s, p);
    if t == Tag then
      var tag :- ReadTag(s, p);
      if tag.value != TAG_SET then Err(UnrecognisedTag(tag.value))
      else DecodeArray(dec, s, tag.next)
    else DecodeArray(dec, s, p)
  }

  /** Tag 258, then a definite-length array of the items. */
  function EncodeTaggedArray<T>(enc: EncodeFn<T>, xs: seq<T>): (r: seq<Byte>)
    ensures |r| > 3 && r[..3] == [0xD9, 0x01, 0x02] && r[3..] == EncodeArray(enc, xs)
  {
    EncodeTag(TAG_SET) + EncodeArray(enc, xs)
  }

  datatype Set<T> = Set(items: seq<T>)
  {
    /** `to_vec`, `deref` and iteration: the items, in order. */
    function ToVec(): seq<T> {
      items
    }

    /** The conversion from `Set<KeepRaw<T>>`: each value unwrapped, in order. */
    static function FromKeepRaw(xs: seq<Raw.KeepRaw<T>>): (r: Set<T>)
      reads set i | 0 <= i < |xs| :: xs[i]
      ensures |r.ToVec()| == |xs| && forall i :: 0 <= i < |xs| ==> r.ToVec()[i] == xs[i].inner
    {
      Set(Raw.UnwrapAll(xs))
    }

    /** Decoding: the items `DecodeTaggedArray` reads, and its errors. */
    static function Decode(dec: DecodeFn<T>, s: seq<Byte>, p: nat): (r: DecodeResult<Set<T>>)
      ensures Advances(r, p, |s|)
      ensures r.Ok? <==> DecodeTaggedArray(dec, s, p).Ok?
      ensures r.Ok? ==> DecodeTaggedArray(dec, s, p) == Ok(Decoded(r.value.value.items, r.value.next))
      ensures r.Err? ==> r.error == DecodeTaggedArray(dec, s, p).error
    {
      var xs :- DecodeTaggedArray(dec, s, p);
      Ok(Decoded(Set(xs.value), xs.next))
    }

    function Encoding(enc: EncodeFn<T>): seq<Byte> {
      EncodeTaggedArray(enc, items)
    }
  }

  datatype NonEmptySet<T> = NonEmptySet(items: seq<T>)
  {
    /** `to_vec`, `deref` and iteration: the items, in order. */
    function ToVec(): seq<T> {
      items
    }

    /** `from_vec`: nothing for an empty list. */
    static function FromVec(x: seq<T>): (r: Option<NonEmptySet<T>>)
      ensures r.None? <==> x == []
      ensures r.Some? ==> r.value.ToVec() == x
    {
      if x == [] then None else Some(NonEmptySet(x))
    }

    /** The conversion from a `Vec`: an empty list is handed back as the error. */
    static function TryFromVec(x: seq<T>): (r: Result<NonEmptySet<T>, seq<T>>)
      ensures r.Err? <==> x == []
      ensures r.Err? ==> r.error == x
      ensures r.Ok? ==> r.value.ToVec() == x
    {
      if x == [] then Err(x) else Ok(NonEmptySet(x))
    }

    /** The conversion from `NonEmptySet<KeepRaw<T>>`: each value unwrapped, in order. */
    static function FromKeepRaw(xs: seq<Raw.KeepRaw<T>>): (r: NonEmptySet<T>)
      reads set i | 0 <= i < |xs| :: xs[i]
      ensures |r.ToVec()| == |xs| && forall i :: 0 <= i < |xs| ==> r.ToVec()[i] == xs[i].inner
    {
      NonEmptySet(Raw.UnwrapAll(xs))
    }

    /** Decoding: `Set`'s decoding, with no check that there is an item. */
    static function Decode(dec: DecodeFn<T>, s: seq<Byte>, p: nat): (r: DecodeResult<NonEmptySet<T>>)
      ensures Advances(r, p, |s|)
      ensures r.Ok? <==> Set.Decode(dec, s, p).Ok?
      ensures r.Ok? ==> Set.Decode(dec, s, p) == Ok(Decoded(Set(r.value.value.items), r.value.next))
      ensures r.Err? ==> r.error == Set.Decode(dec, s, p).error
    {
      var xs :- DecodeTaggedArray(dec, s, p);
      Ok(Decoded(NonEmptySet(xs.value), xs.next))
    }

    function Encoding(enc: EncodeFn<T>): seq<Byte> {
      EncodeTaggedArray(enc, items)
    }
  }

  /** The items come back from what the encoders write: tag 258, then the array. */
  lemma DecodeTagged<T(!new)>(enc: EncodeFn<T>, dec: DecodeFn<T>, xs: seq<T>, s: seq<Byte>, p: nat)
    requires Sound(enc, dec) && |s| < U64_LIMIT && IsAt(s, p, EncodeTaggedArray(enc, xs))
    ensures DecodeTaggedArray(dec, s, p) == Ok(Decoded(xs, p + |EncodeTaggedArray(enc, xs)|))
  {
    IsAtPrefix(s, p, EncodeTag(TAG_SET), EncodeArray(enc, xs));
    ReadTagRoundTrip(s, p, TAG_SET);
    assert EncodeTag(TAG_SET) == [0xD9, 0x01, 0x02];
    assert s[p] == 0xD9;
    DecodeArrayDefinite(enc, dec, xs, s, p + |EncodeTag(TAG_SET)|);
  }

  /** Tag 258 may also be followed by an indefinite-length array of the items. */
  lemma DecodeTaggedIndefinite<T(!new)>(enc: EncodeFn<T>, dec: DecodeFn<T>, xs: seq<T>, s: seq<Byte>, p: nat)
    requires Sound(enc, dec) && |s| < U64_LIMIT && IsAt(s, p, EncodeTag(TAG_SET) + EncodeArrayIndef(enc, xs))
    ensures DecodeTaggedArray(dec, s, p) == Ok(Decoded(xs, p + |EncodeTag(TAG_SET) + EncodeArrayIndef(enc, xs)|))
  {
    IsAtPrefix(s, p, EncodeTag(TAG_SET), EncodeArrayIndef(enc, xs));
    ReadTagRoundTrip(s, p, TAG_SET);
    assert EncodeTag(TAG_SET) == [0xD9, 0x01, 0x02];
    assert s[p] == 0xD9;
    DecodeArrayIndefinite(enc, dec, xs, s, p + |EncodeTag(TAG_SET)|);
  }

  /** The tag is optional: a bare array, of either length form, decodes to its items. */
  lemma DecodeUntagged<T(!new)>(enc: EncodeFn<T>, dec: DecodeFn<T>, xs: seq<T>, s: seq<Byte>, p: nat)
    requires Sound(enc, dec) && |s| < U64_LIMIT
    requires IsAt(s, p, EncodeArray(enc, xs)) || IsAt(s, p, EncodeArrayIndef(enc, xs))
    ensures IsAt(s, p, EncodeArray(enc, xs)) ==> DecodeTaggedArray(dec, s, p) == Ok(Decoded(xs, p + |EncodeArray(enc, xs)|))
    ensures IsAt(s, p, EncodeArrayIndef(enc, xs)) ==> DecodeTaggedArray(dec, s, p) == Ok(Decoded(xs, p + |EncodeArrayIndef(enc, xs)|))
  {
    ArrayFramingTypes(enc, xs);
    if IsAt(s, p, EncodeArray(enc, xs)) {
      var w := EncodeArray(enc, xs);
      assert s[p] == s[p..p + |w|][0] == w[0];
      DecodeArrayDefinite(enc, dec, xs, s, p);
    } else {
      var w := EncodeArrayIndef(enc, xs);
      assert s[p] == s[p..p + |w|][0] == w[0];
      DecodeArrayIndefinite(enc, dec, xs, s, p);
    }
  }

  /** Any other tag is refused with its own number, whatever follows it. */
  lemma DecodeOtherTag<T>(dec: DecodeFn<T>, t: UInt64, s: seq<Byte>, p: nat)
    requires t != TAG_SET && IsAt(s, p, EncodeTag(t))
    ensures DecodeTaggedArray(dec, s, p) == Err(UnrecognisedTag(t))
  {
    ReadTagRoundTrip(s, p, t);
    var w := EncodeTag(t);
    assert s[p] == s[p..p + |w|][0] == w[0] == TAG * 32 + InfoOf(Shortest(t), t);
  }

  lemma SetDecodeEncoding<T(!new)>(x: Set<T>, enc: EncodeFn<T>, dec: DecodeFn<T>, s: seq<Byte>, p: nat)
    requires Sound(enc, dec) && |s| < U64_LIMIT && IsAt(s, p, x.Encoding(enc))
    ensures Set.Decode(dec, s, p) == Ok(Decoded(x, p + |x.Encoding(enc)|))
  {
    DecodeTagged(enc, dec, x.items, s, p);
  }

  lemma NonEmptySetDecodeEncoding<T(!new)>(x: NonEmptySet<T>, enc: EncodeFn<T>, dec: DecodeFn<T>, s: seq<Byte>, p: nat)
    requires Sound(enc, dec) && |s| < U64_LIMIT && IsAt(s, p, x.Encoding(enc))
    ensures NonEmptySet.Decode(dec, s, p) == Ok(Decoded(x, p + |x.Encoding(enc)|))
  {
    DecodeTagged(enc, dec, x.items, s, p);
  }

  /** `D9010280`, a tagged empty array, is accepted as a `NonEmptySet`. */
  lemma NonEmptySetAcceptsEmpty<T>(dec: DecodeFn<T>)
    ensures NonEmptySet.Decode(dec, [0xD9, 0x01, 0x02, 0x80], 0) == Ok(Decoded(NonEmptySet([]), 4))
  {
    var s: seq<Byte> := [0xD9, 0x01, 0x02, 0x80];
    assert EncodeTag(TAG_SET) == [0xD9, 0x01, 0x02];
    assert s == EncodeTag(TAG_SET) + [0x80];
    IsAtWhole(s);
    IsAtPrefix(s, 0, EncodeTag(TAG_SET), [0x80]);
    ReadTagRoundTrip(s, 0, TAG_SET);
    assert ReadHead(s, 3) == Ok(HeadInfo(ARRAY, 0, 0, 4));
  }
}
