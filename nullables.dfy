/**
 * `Nullable`: an optional value with two distinct kinds of absence, CBOR's `null`
 * (`F6`) and `undefined` (`F7`).
 */
module Nullables {
  import Wrappers
  import opened Cbor

  datatype Nullable<T> = Some(value: T) | Null | Undefined
  {
    /** `map`: applies `f` to a present value and keeps either kind of absence. */
    function Map<O>(f: T -> O): (r: Nullable<O>)
      ensures r.Some? <==> Some?
      ensures r.Null? <==> Null?
      ensures r.Some? ==> r.value == f(value)
      ensures r.ToOption() == (if Some? then Wrappers.Some(f(value)) else Wrappers.None)
    {
      match this
      case Some(x) => Some(f(x))
      case Null => Null
      case Undefined => Undefined
    }

    /** The conversion into an `Option`: both kinds of absence become `None`. */
    function ToOption(): (r: Wrappers.Option<T>)
      ensures r.Some? <==> Some?
      ensures r.Some? ==> r.value == value
    {
      match this
      case Some(x) => Wrappers.Some(x)
      case _ => Wrappers.None
    }

    /** The conversion from an `Option`: `None` becomes `Null`. */
    static function FromOption(o: Wrappers.Option<T>): (r: Nullable<T>)
      ensures r.ToOption() == o
      ensures !r.Undefined?
    {
      match o
      case Some(x) => Some(x)
      case None => Null
    }

    /**
     * Decoding: `Null` for `F6` and `Undefined` for `F7`, each consuming that one byte;
     * anything else is handed to the inner decoder.
     */
    static function Decode(dec: DecodeFn<T>, s: seq<Byte>, p: nat): (r: DecodeResult<Nullable<T>>)
      ensures Advances(r, p, |s|)
      ensures r.Ok? && r.value.value.Null? <==> p < |s| && s[p] == NULL
      ensures r.Ok? && r.value.value.Undefined? <==> p < |s| && s[p] == UNDEFINED
      ensures r.Ok? && r.value.value.Null? ==> r.value.next == p + 1
      ensures r.Ok? && r.value.value.Undefined? ==> r.value.next == p + 1
      ensures r.Ok? && r.value.value.Some? ==> dec(s, p) == Wrappers.Ok(Decoded(r.value.value.value, r.value.next))
      ensures p < |s| && s[p] != NULL && s[p] != UNDEFINED ==> (r.Ok? <==> dec(s, p).Ok?)
    {
      var t :- DataType(s, p);
      assert t == NullMarker <==> s[p] == NULL;
      assert t == UndefinedMarker <==> s[p] == UNDEFINED;
      if t == NullMarker then Wrappers.Ok(Decoded(Null, p + 1))
      else if t == UndefinedMarker then Wrappers.Ok(Decoded(Undefined, p + 1))
      else
        var x :- dec(s, p);
        Wrappers.Ok(Decoded(Some(x.value), x.next))
    }

    /** The inner value's encoding, `F6` or `F7`. */
    function Encoding(enc: EncodeFn<T>): seq<Byte> {
      match this
      case Some(x) => enc(x)
      case Null => [NULL]
      case Undefined => [UNDEFINED]
    }
  }

  /** Converting into an `Option` and back gives a `Nullable` back unless it is `Undefined`. */
  lemma OptionRoundTrip<T>(n: Nullable<T>)
    ensures Nullable.FromOption(n.ToOption()) == n <==> !n.Undefined?
  {
  }

  /** No item the inner encoder writes starts with `F6` or `F7`. */
  ghost predicate AvoidsNullBytes<T(!new)>(enc: EncodeFn<T>) {
    forall x :: |enc(x)| > 0 && enc(x)[0] != NULL && enc(x)[0] != UNDEFINED
  }

  /** What `Encoding` writes decodes to the same value, for an inner type that is never written as `F6` or `F7`. */
  lemma DecodeEncoding<T(!new)>(n: Nullable<T>, enc: EncodeFn<T>, dec: DecodeFn<T>, s: seq<Byte>, p: nat)
    requires Sound(enc, dec) && AvoidsNullBytes(enc) && |s| < U64_LIMIT && IsAt(s, p, n.Encoding(enc))
    ensures Nullable.Decode(dec, s, p) == Wrappers.Ok(Decoded(n, p + |n.Encoding(enc)|))
  {
    var w := n.Encoding(enc);
    assert s[p] == s[p..p + |w|][0] == w[0];
    if n.Some? {
      SoundAt(enc, dec, n.value, s, p);
    }
  }

  /**
   * A nested `Some(Null)` is written `F6`, the same bytes as the outer `Null`, and so is
   * read back as the outer `Null`, whatever the inner decoder: the nesting is not kept.
   */
  lemma NestedNullCollapses<T>(enc: EncodeFn<T>, dec: DecodeFn<Nullable<T>>)
    ensures Nullable<Nullable<T>>.Some(Null).Encoding((n: Nullable<T>) => n.Encoding(enc))
         == Nullable<Nullable<T>>.Null.Encoding((n: Nullable<T>) => n.Encoding(enc))
    ensures Nullable.Decode(dec, Nullable<Nullable<T>>.Some(Null).Encoding((n: Nullable<T>) => n.Encoding(enc)), 0)
         == Wrappers.Ok(Decoded(Null, 1))
  {
  }
}
