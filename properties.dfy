/**
 * `OrderPreservingProperties`: the entries of a CBOR map read as a list of properties,
 * each property writing its own key and value, so that the entries come back in the
 * order they were written rather than in a canonical order.
 */
module Properties {
  import opened Wrappers
  import opened Cbor

  /** The number of properties read for a map head: its count, or 0 (`unwrap_or_default`) for none. */
  function CountOf(len: Length): nat {
    match len
    case Definite(n) => n
    case Indefinite => 0
  }

  /** The constructor is the conversion from a `Vec`; the field is `deref`. */
  datatype OrderPreservingProperties<P> = OrderPreservingProperties(properties: seq<P>)
  {
    /**
     * Decoding as written: the count of a definite map head, or 0 for an indefinite one
     * (`unwrap_or_default`), then that many properties.  An indefinite map therefore
     * yields no properties and leaves its entries and its break unread.
     */
    static function Decode(dec: DecodeFn<P>, s: seq<Byte>, p: nat): (r: DecodeResult<OrderPreservingProperties<P>>)
      ensures Advances(r, p, |s|)
      ensures r.Ok? && s[p] == IndefiniteHead(MAP) ==> r.value.value.properties == [] && r.value.next == p + 1
      ensures r.Ok? && s[p] != IndefiniteHead(MAP) ==> ReadHead(s, p).Ok? && |r.value.value.properties| == ReadHead(s, p).value.arg
      ensures r.Ok? <==>
        (ReadLength(s, p, MAP).Ok? &&
         DecodeItems(dec, s, ReadLength(s, p, MAP).value.next, CountOf(ReadLength(s, p, MAP).value.value)).Ok?)
      ensures r.Ok? ==>
        DecodeItems(dec, s, ReadLength(s, p, MAP).value.next, CountOf(ReadLength(s, p, MAP).value.value))
          == Ok(Decoded(r.value.value.properties, r.value.next))
    {
      var len :- ReadLength(s, p, MAP);
      var items :- DecodeItems(dec, s, len.next, CountOf(len.value));
      Ok(Decoded(OrderPreservingProperties(items.value), items.next))
    }

    /**
     * The decoding the type's purpose calls for: the same for a definite map, and the
     * properties up to the break for an indefinite one.
     */
    static function DecodeAnyLength(dec: DecodeFn<P>, s: seq<Byte>, p: nat): (r: DecodeResult<OrderPreservingProperties<P>>)
      ensures Advances(r, p, |s|)
      ensures !(p < |s| && s[p] == IndefiniteHead(MAP)) ==> r == Decode(dec, s, p)
    {
      var len :- ReadLength(s, p, MAP);
      var items :- match len.value
        case Definite(n) => DecodeItems(dec, s, len.next, n)
        case Indefinite => DecodeUntilBreak(dec, s, len.next);
      Ok(Decoded(OrderPreservingProperties(items.value), items.next))
    }

    /** The bytes `Encode` writes: a definite map head with the number of properties, then each property. */
    function Encoding(enc: EncodeFn<P>): seq<Byte> {
      Head(MAP, AsU64(|properties|)) + ItemsBytes(enc, properties)
    }

    method Encode(e: Encoder, enc: EncodeFn<P>)
      modifies e
      ensures e.written == old(e.written) + Encoding(enc)
    {
      e.WriteAll(Head(MAP, AsU64(|properties|)));
      e.WriteItems(enc, properties);
    }
  }

  /** The properties come back in the order they were written. */
  lemma DecodeEncoding<P(!new)>(m: OrderPreservingProperties<P>, enc: EncodeFn<P>, dec: DecodeFn<P>, s: seq<Byte>, p: nat)
    requires Sound(enc, dec) && |s| < U64_LIMIT && IsAt(s, p, m.Encoding(enc))
    ensures OrderPreservingProperties.Decode(dec, s, p) == Ok(Decoded(m, p + |m.Encoding(enc)|))
    ensures OrderPreservingProperties.DecodeAnyLength(dec, s, p) == Ok(Decoded(m, p + |m.Encoding(enc)|))
  {
    DecodeCounted(MAP, enc, dec, m.properties, s, p);
    var w := m.Encoding(enc);
    assert s[p] == s[p..p + |w|][0] == w[0] == Head(MAP, |m.properties|)[0];
  }

  /**
   * As written, an indefinite-length map of properties decodes to no properties and
   * stops right after its initial byte, whatever it holds.
   */
  lemma IndefiniteMapReadAsEmpty<P>(dec: DecodeFn<P>, s: seq<Byte>, p: nat)
    requires IsAt(s, p, [IndefiniteHead(MAP)])
    ensures OrderPreservingProperties.Decode(dec, s, p) == Ok(Decoded(OrderPreservingProperties([]), p + 1))
  {
    ReadLengthIndefinite(s, p, MAP);
  }

  /** `BF 00 01 FF`, an indefinite map of one unsigned entry: as written, three bytes are left unread. */
  lemma IndefiniteMapExample()
    ensures OrderPreservingProperties.Decode(U64Decoder, [0xBF, 0x00, 0x01, 0xFF], 0) == Ok(Decoded(OrderPreservingProperties([]), 1))
  {
    IndefiniteMapReadAsEmpty(U64Decoder, [0xBF, 0x00, 0x01, 0xFF], 0);
  }

  /** The indefinite-length form of the same properties. */
  function EncodingIndef<P>(m: OrderPreservingProperties<P>, enc: EncodeFn<P>): seq<Byte> {
    [IndefiniteHead(MAP)] + ItemsBytes(enc, m.properties) + [BREAK]
  }

  /** The corrected decoding reads every property of an indefinite map, and its break. */
  lemma DecodeAnyLengthIndefinite<P(!new)>(m: OrderPreservingProperties<P>, enc: EncodeFn<P>, dec: DecodeFn<P>, s: seq<Byte>, p: nat)
    requires Sound(enc, dec) && |s| < U64_LIMIT && IsAt(s, p, EncodingIndef(m, enc))
    ensures OrderPreservingProperties.DecodeAnyLength(dec, s, p) == Ok(Decoded(m, p + |EncodingIndef(m, enc)|))
  {
    var body := ItemsBytes(enc, m.properties) + [BREAK];
    assert EncodingIndef(m, enc) == [IndefiniteHead(MAP)] + body;
    IsAtPrefix(s, p, [IndefiniteHead(MAP)], body);
    ReadLengthIndefinite(s, p, MAP);
    DecodeUntilBreakRoundTrip(enc, dec, m.properties, s, p + 1);
  }
}
