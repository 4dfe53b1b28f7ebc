/**
 * `MaybeIndefArray`: the items of a CBOR array together with whether the array was
 * written with a definite count or as an indefinite-length array.
 */
module Arrays {
  import opened Wrappers
  import opened Cbor

  datatype MaybeIndefArray<A> = Def(items: seq<A>) | Indef(items: seq<A>)
  {
    /** `to_vec`, the conversion into a `Vec` and `deref`: the items, in order. */
    function ToVec(): seq<A> {
      match this
      case Def(x) => x
      case Indef(x) => x
    }

    /**
     * Decoding: `Def` for an array with a count head, `Indef` for an indefinite-length
     * array, the items being read as a `Vec` in both cases; anything else fails.
     */
    static function Decode(dec: DecodeFn<A>, s: seq<Byte>, p: nat): (r: DecodeResult<MaybeIndefArray<A>>)
      ensures Advances(r, p, |s|)
      ensures r.Ok? ==> (r.value.value.Indef? <==> s[p] == IndefiniteHead(ARRAY))
      ensures r.Ok? <==> DecodeArray(dec, s, p).Ok?
      ensures r.Ok? ==> DecodeArray(dec, s, p) == Ok(Decoded(r.value.value.ToVec(), r.value.next))
    {
      var t :- DataType(s, p);
      TypeOfFraming(s[p]);
      if t == Array then
        var d :- DecodeArray(dec, s, p);
        Ok(Decoded(Def(d.value), d.next))
      else if t == ArrayIndef then
        var d :- DecodeArray(dec, s, p);
        Ok(Decoded(Indef(d.value), d.next))
      else Err(Invalid)
    }

    function Encoding(enc: EncodeFn<A>): seq<Byte> {
      match this
      case Def(x) => EncodeArray(enc, x)
      case Indef(x) => EncodeArrayIndef(enc, x)
    }

    /** Encoding: `Def` as a `Vec` (count head and items), `Indef` as the indefinite head, the items and a break. */
    method Encode(e: Encoder, enc: EncodeFn<A>)
      modifies e
      ensures e.written == old(e.written) + Encoding(enc)
    {
      match this
      case Def(x) =>
        e.WriteAll(EncodeArray(enc, x));
      case Indef(x) =>
        e.WriteAll([IndefiniteHead(ARRAY)]);
        e.WriteItems(enc, x);
        e.WriteAll([BREAK]);
    }
  }

  lemma DecodeEncoding<A(!new)>(a: MaybeIndefArray<A>, enc: EncodeFn<A>, dec: DecodeFn<A>, s: seq<Byte>, p: nat)
    requires Sound(enc, dec) && |s| < U64_LIMIT && IsAt(s, p, a.Encoding(enc))
    ensures MaybeIndefArray.Decode(dec, s, p) == Ok(Decoded(a, p + |a.Encoding(enc)|))
  {
    var w := a.Encoding(enc);
    ArrayFramingTypes(enc, a.items);
    assert s[p] == s[p..p + |w|][0] == w[0];
    match a
    case Def(x) => DecodeArrayDefinite(enc, dec, x, s, p);
    case Indef(x) => DecodeArrayIndefinite(enc, dec, x, s, p);
  }
}
