/**
 * `NonEmptyKeyValuePairs`: the same framing-preserving map as `KeyValuePairs`, for maps
 * that ought to have at least one entry.  The constructors from a `Vec` and from a
 * `KeyValuePairs` refuse an empty list; the decoder does not.
 */
module NonEmptyPairs {
  import opened Wrappers
  import opened Cbor
  import Pairs

  /** The error text of both fallible conversions. */
  const EMPTY_MESSAGE: string := "NonEmptyKeyValuePairs must contain at least one element"

  datatype NonEmptyKeyValuePairs<K, V> = Def(items: seq<(K, V)>) | Indef(items: seq<(K, V)>)
  {
    /** `to_vec`, `into_iter`, the conversion into a `Vec` and `deref`: the entries, in order. */
    function ToVec(): seq<(K, V)> {
      match this
      case Def(x) => x
      case Indef(x) => x
    }

    /** `from_vec`: nothing for an empty list, else the definite form. */
    static function FromVec(x: seq<(K, V)>): (r: Option<NonEmptyKeyValuePairs<K, V>>)
      ensures r.None? <==> x == []
      ensures r.Some? ==> r.value.Def? && r.value.ToVec() == x
    {
      if x == [] then None else Some(Def(x))
    }

    /** The conversion from a `Vec`: an error message for an empty list, else the definite form. */
    static function TryFromVec(x: seq<(K, V)>): (r: Result<NonEmptyKeyValuePairs<K, V>, string>)
      ensures r.Err? <==> x == []
      ensures r.Err? ==> r.error == EMPTY_MESSAGE
      ensures r.Ok? ==> r.value.Def? && r.value.ToVec() == x
    {
      if x == [] then Err(EMPTY_MESSAGE) else Ok(Def(x))
    }

    /** The conversion from `KeyValuePairs`: refuses no entries, otherwise keeps entries and framing. */
    static function TryFromKeyValuePairs(kvp: Pairs.KeyValuePairs<K, V>): (r: Result<NonEmptyKeyValuePairs<K, V>, string>)
      ensures r.Err? <==> kvp.ToVec() == []
      ensures r.Err? ==> r.error == EMPTY_MESSAGE
      ensures r.Ok? ==> r.value.ToVec() == kvp.ToVec() && (r.value.Indef? <==> kvp.Indef?)
    {
      match kvp
      case Def(x) => if x == [] then Err(EMPTY_MESSAGE) else Ok(Def(x))
      case Indef(x) => if x == [] then Err(EMPTY_MESSAGE) else Ok(Indef(x))
    }

    /** The same entries and framing as a `KeyValuePairs`, whose wire format this type shares. */
    function AsKeyValuePairs(): (r: Pairs.KeyValuePairs<K, V>)
      ensures r.ToVec() == ToVec() && (r.Indef? <==> Indef?)
    {
      match this
      case Def(x) => Pairs.Def(x)
      case Indef(x) => Pairs.Indef(x)
    }

    /**
     * Decoding: exactly `KeyValuePairs`' decoding, with no check that the map has an
     * entry, so an empty map decodes.
     */
    static function Decode(decK: DecodeFn<K>, decV: DecodeFn<V>, s: seq<Byte>, p: nat): (r: DecodeResult<NonEmptyKeyValuePairs<K, V>>)
      ensures Advances(r, p, |s|)
      ensures r.Ok? ==> (r.value.value.Indef? <==> s[p] == IndefiniteHead(MAP))
      ensures r.Ok? <==> Pairs.KeyValuePairs.Decode(decK, decV, s, p).Ok?
      ensures r.Ok? ==> r.value.value.AsKeyValuePairs() == Pairs.KeyValuePairs.Decode(decK, decV, s, p).value.value
    {
      var d :- Pairs.KeyValuePairs.Decode(decK, decV, s, p);
      match d.value
      case Def(x) => Ok(Decoded(Def(x), d.next))
      case Indef(x) => Ok(Decoded(Indef(x), d.next))
    }

    function Encoding(encK: EncodeFn<K>, encV: EncodeFn<V>): seq<Byte> {
      AsKeyValuePairs().Encoding(encK, encV)
    }

    /** Encoding: a count head or the indefinite head, each key then its value, and a break for `Indef`. */
    method Encode(e: Encoder, encK: EncodeFn<K>, encV: EncodeFn<V>)
      modifies e
      ensures e.written == old(e.written) + Encoding(encK, encV)
      ensures Def? ==> e.written == old(e.written) + EncodeMap(encK, encV, items)
      ensures Indef? ==> e.written == old(e.written) + EncodeMapIndef(encK, encV, items)
    {
      match this
      case Def(x) =>
        e.WriteAll(Head(MAP, AsU64(|x|)));
        Pairs.WriteEntries(e, encK, encV, x);
      case Indef(x) =>
        e.WriteAll([IndefiniteHead(MAP)]);
        Pairs.WriteEntries(e, encK, encV, x);
        e.WriteAll([BREAK]);
    }
  }

  /** The decoder takes an empty map (`A0`) and yields an empty, definite value. */
  lemma DecodeAcceptsEmptyMap<K, V>(decK: DecodeFn<K>, decV: DecodeFn<V>)
    ensures NonEmptyKeyValuePairs.Decode(decK, decV, [0xA0], 0) == Ok(Decoded(Def([]), 1))
  {
    assert ReadHead([0xA0], 0) == Ok(HeadInfo(MAP, 0, 0, 1));
  }

  lemma DecodeEncoding<K(!new), V(!new)>(m: NonEmptyKeyValuePairs<K, V>, encK: EncodeFn<K>, decK: DecodeFn<K>,
                                         encV: EncodeFn<V>, decV: DecodeFn<V>, s: seq<Byte>, p: nat)
    requires Sound(encK, decK) && Sound(encV, decV)
    requires |s| < U64_LIMIT && IsAt(s, p, m.Encoding(encK, encV))
    ensures NonEmptyKeyValuePairs.Decode(decK, decV, s, p) == Ok(Decoded(m, p + |m.Encoding(encK, encV)|))
  {
    Pairs.DecodeEncoding(m.AsKeyValuePairs(), encK, decK, encV, decV, s, p);
  }
}
