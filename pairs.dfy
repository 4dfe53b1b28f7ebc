/**
 * `KeyValuePairs`: the entries of a CBOR map kept as an ordered list, together with
 * whether the map was written with a definite count or as an indefinite-length map.
 * Keeping both is what lets a decoded map be written back byte for byte.
 */
module Pairs {
  import opened Wrappers
  import opened Cbor

  datatype KeyValuePairs<K, V> = Def(items: seq<(K, V)>) | Indef(items: seq<(K, V)>)
  {
    /** `to_vec`, the conversion into a `Vec` and `deref`: the entries, in order. */
    function ToVec(): seq<(K, V)> {
      match this
      case Def(x) => x
      case Indef(x) => x
    }

    /** The conversion from a `Vec` and `from_iter`: always the definite form. */
    static function FromVec(x: seq<(K, V)>): (r: KeyValuePairs<K, V>)
      ensures r.Def? && r.ToVec() == x
    {
      Def(x)
    }

    /**
     * Decoding: the entries of a map of either length form, in wire order; the result
     * is `Indef` exactly when the map was written with the indefinite-length head.
     */
    static function Decode(decK: DecodeFn<K>, decV: DecodeFn<V>, s: seq<Byte>, p: nat): (r: DecodeResult<KeyValuePairs<K, V>>)
      ensures Advances(r, p, |s|)
      ensures r.Ok? <==> DecodeMap(decK, decV, s, p).Ok?
      ensures r.Ok? ==> DecodeMap(decK, decV, s, p) == Ok(Decoded(r.value.value.ToVec(), r.value.next))
      ensures r.Ok? ==> (r.value.value.Indef? <==> s[p] == IndefiniteHead(MAP))
    {
      var t :- DataType(s, p);
      var entries :- DecodeMap(decK, decV, s, p);
      TypeOfFraming(s[p]);
      if t == Map then Ok(Decoded(Def(entries.value), entries.next))
      else if t == MapIndef then Ok(Decoded(Indef(entries.value), entries.next))
      else Err(Invalid)
    }

    /** The bytes `Encode` writes: a count head or the indefinite head, then each key and value, then a break for `Indef`. */
    function Encoding(encK: EncodeFn<K>, encV: EncodeFn<V>): seq<Byte> {
      match this
      case Def(x) => EncodeMap(encK, encV, x)
      case Indef(x) => EncodeMapIndef(encK, encV, x)
    }

    method Encode(e: Encoder, encK: EncodeFn<K>, encV: EncodeFn<V>)
      modifies e
      ensures e.written == old(e.written) + Encoding(encK, encV)
    {
      match this
      case Def(x) =>
        e.WriteAll(Head(MAP, AsU64(|x|)));
        WriteEntries(e, encK, encV, x);
      case Indef(x) =>
        e.WriteAll([IndefiniteHead(MAP)]);
        WriteEntries(e, encK, encV, x);
        e.WriteAll([BREAK]);
    }
  }

  /** The loop of both encoders: each key, then its value. */
  method WriteEntries<K, V>(e: Encoder, encK: EncodeFn<K>, encV: EncodeFn<V>, x: seq<(K, V)>)
    modifies e
    ensures e.written == old(e.written) + ItemsBytes(PairEncoder(encK, encV), x)
  {
    for i := 0 to |x|
      invariant e.written == old(e.written) + ItemsBytes(PairEncoder(encK, encV), x[..i])
    {
      ItemsBytesSnoc(PairEncoder(encK, encV), x, i);
      e.WriteAll(encK(x[i].0));
      e.WriteAll(encV(x[i].1));
    }
    assert x[..|x|] == x;
  }

  /** Conversions: the entries survive both ways, and only the definite form comes back from a `Vec`. */
  lemma ConversionRoundTrip<K, V>(x: seq<(K, V)>, kvp: KeyValuePairs<K, V>)
    ensures KeyValuePairs.FromVec(x).ToVec() == x
    ensures kvp.ToVec() == kvp.items
    ensures KeyValuePairs.FromVec(kvp.ToVec()) == kvp <==> kvp.Def?
  {
  }

  /** Decoding what was encoded gives back the same entries in the same order and the same framing. */
  lemma DecodeEncoding<K(!new), V(!new)>(kvp: KeyValuePairs<K, V>, encK: EncodeFn<K>, decK: DecodeFn<K>,
                                         encV: EncodeFn<V>, decV: DecodeFn<V>, s: seq<Byte>, p: nat)
    requires Sound(encK, decK) && Sound(encV, decV)
    requires |s| < U64_LIMIT && IsAt(s, p, kvp.Encoding(encK, encV))
    ensures KeyValuePairs.Decode(decK, decV, s, p) == Ok(Decoded(kvp, p + |kvp.Encoding(encK, encV)|))
  {
    var w := kvp.Encoding(encK, encV);
    MapFramingTypes(encK, encV, kvp.items);
    assert s[p] == s[p..p + |w|][0] == w[0];
    match kvp
    case Def(x) => DecodeMapDefinite(encK, decK, encV, decV, x, s, p);
    case Indef(x) => DecodeMapIndefinite(encK, decK, encV, decV, x, s, p);
    DecodeFromEntries(decK, decV, s, p, kvp, p + |w|);
  }

  /** A value is decoded once its entries are read and its framing matches the initial byte. */
  lemma DecodeFromEntries<K, V>(decK: DecodeFn<K>, decV: DecodeFn<V>, s: seq<Byte>, p: nat, kvp: KeyValuePairs<K, V>, next: nat)
    requires DecodeMap(decK, decV, s, p) == Ok(Decoded(kvp.items, next))
    requires kvp.Indef? <==> s[p] == IndefiniteHead(MAP)
    ensures KeyValuePairs.Decode(decK, decV, s, p) == Ok(Decoded(kvp, next))
  {
    var r := KeyValuePairs.Decode(decK, decV, s, p);
    assert r.Ok? && r.value.value.items == kvp.items;
  }
}
