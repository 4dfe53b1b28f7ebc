/**
 * Wrappers for "nothing, or one thing" patterns: `EmptyMap`, which is always written
 * as the empty map, and `ZeroOrOneArray`, an optional value written as an array of
 * length 0 or 1.
 */
module Optional {
  import opened Wrappers
  import opened Cbor

  /** The empty map, written `A0`. */
  datatype EmptyMap = EmptyMap
  {
    /** Decoding skips one data item, of any type and any content. */
    static function Decode(s: seq<Byte>, p: nat): (r: DecodeResult<EmptyMap>)
      ensures Advances(r, p, |s|)
      ensures r.Ok? <==> Skip(s, p).Ok?
      ensures r.Ok? ==> r.value.next == Skip(s, p).value
    {
      var next :- Skip(s, p);
      Ok(Decoded(EmptyMap, next))
    }

    /** Encoding: a map head with count 0, whatever was decoded. */
    static function Encoding(): (r: seq<Byte>)
      ensures r == [0xA0]
    {
      Head(MAP, 0)
    }
  }

  /** Any item `skip` can step over decodes as an `EmptyMap`, not only the empty map. */
  lemma EmptyMapAcceptsAnyItem<T(!new)>(enc: EncodeFn<T>, x: T, s: seq<Byte>, p: nat)
    requires Skips(enc) && |s| < U64_LIMIT && IsAt(s, p, enc(x))
    ensures EmptyMap.Decode(s, p) == Ok(Decoded(EmptyMap, p + |enc(x)|))
  {
  }

  lemma EmptyMapDecodeEncoding(s: seq<Byte>, p: nat)
    requires IsAt(s, p, EmptyMap.Encoding())
    ensures EmptyMap.Decode(s, p) == Ok(Decoded(EmptyMap, p + 1))
  {
    assert s[p] == s[p..p + 1][0] == 0xA0;
    assert ReadHead(s, p) == Ok(HeadInfo(MAP, 0, 0, p + 1));
    assert SkipN(s, p + 1, 0) == Ok(p + 1);
    assert Skip(s, p) == Ok(p + 1);
  }

  /** The unsigned integer 1, and a two-item array, are both read as an `EmptyMap`. */
  lemma EmptyMapExamples()
    ensures EmptyMap.Decode([0x01], 0) == Ok(Decoded(EmptyMap, 1))
    ensures EmptyMap.Decode([0x82, 0x01, 0x02], 0) == Ok(Decoded(EmptyMap, 3))
  {
    var s: seq<Byte> := [0x82, 0x01, 0x02];
    assert ReadHead(s, 0) == Ok(HeadInfo(ARRAY, 2, 2, 1));
    assert Skip(s, 2) == Ok(3);
    assert Skip(s, 1) == Ok(2);
    assert SkipN(s, 3, 0) == Ok(3);
    assert SkipN(s, 2, 1) == Ok(3);
    assert SkipN(s, 1, 2) == Ok(3);
  }

  /** An optional value; `deref` is the field. */
  datatype ZeroOrOneArray<T> = ZeroOrOneArray(value: Option<T>)
  {
    /**
     * Decoding: a definite array of length 0 is `None`, of length 1 is its item; any
     * other length, and any indefinite-length array, is an error.
     */
    static function Decode(dec: DecodeFn<T>, s: seq<Byte>, p: nat): (r: DecodeResult<ZeroOrOneArray<T>>)
      ensures Advances(r, p, |s|)
      ensures r.Ok? ==> ReadLength(s, p, ARRAY).Ok?
      ensures r.Ok? ==> ReadLength(s, p, ARRAY).value.value == Definite(if r.value.value.value.Some? then 1 else 0)
      ensures ReadLength(s, p, ARRAY).Ok? && ReadLength(s, p, ARRAY).value.value !in {Definite(0), Definite(1)} ==> r.Err?
      ensures ReadLength(s, p, ARRAY).Ok? && ReadLength(s, p, ARRAY).value.value == Definite(0) ==>
        r == Ok(Decoded(ZeroOrOneArray(None), ReadLength(s, p, ARRAY).value.next))
      ensures ReadLength(s, p, ARRAY).Ok? && ReadLength(s, p, ARRAY).value.value == Definite(1) ==>
        (r.Ok? <==> dec(s, ReadLength(s, p, ARRAY).value.next).Ok?)
      ensures r.Ok? && r.value.value.value.Some? ==>
        dec(s, ReadLength(s, p, ARRAY).value.next) == Ok(Decoded(r.value.value.value.value, r.value.next))
    {
      var len :- ReadLength(s, p, ARRAY);
      match len.value
      case Definite(n) =>
        if n == 0 then Ok(Decoded(ZeroOrOneArray(None), len.next))
        else if n == 1 then
          var x :- dec(s, len.next);
          Ok(Decoded(ZeroOrOneArray(Some(x.value)), x.next))
        else Err(Invalid)
      case Indefinite => Err(Invalid)
    }

    /** `array(1)` and the item, or `array(0)`. */
    function Encoding(enc: EncodeFn<T>): (r: seq<Byte>)
      ensures |r| >= 1 && r[0] == if value.Some? then 0x81 else 0x80
      ensures value.Some? ==> r[1..] == enc(value.value)
      ensures value.None? ==> |r| == 1
    {
      match value
      case Some(x) => Head(ARRAY, 1) + enc(x)
      case None => Head(ARRAY, 0)
    }
  }

  lemma ZeroOrOneDecodeEncoding<T(!new)>(z: ZeroOrOneArray<T>, enc: EncodeFn<T>, dec: DecodeFn<T>, s: seq<Byte>, p: nat)
    requires Sound(enc, dec) && |s| < U64_LIMIT && IsAt(s, p, z.Encoding(enc))
    ensures ZeroOrOneArray.Decode(dec, s, p) == Ok(Decoded(z, p + |z.Encoding(enc)|))
  {
    match z.value
    case None =>
      ReadLengthDefinite(s, p, ARRAY, 0);
    case Some(x) =>
      IsAtPrefix(s, p, Head(ARRAY, 1), enc(x));
      ReadLengthDefinite(s, p, ARRAY, 1);
      SoundAt(enc, dec, x, s, p + 1);
  }

  /** An indefinite-length array is refused, even one holding a single item. */
  lemma ZeroOrOneRefusesIndefinite<T>(dec: DecodeFn<T>, s: seq<Byte>, p: nat)
    requires IsAt(s, p, [IndefiniteHead(ARRAY)])
    ensures ZeroOrOneArray.Decode(dec, s, p).Err?
  {
    ReadLengthIndefinite(s, p, ARRAY);
  }
}
