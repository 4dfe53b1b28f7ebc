/**
 * `Bytes`: a byte vector written as a CBOR byte string, whose text form is base16
 * (RFC 4648 section 8) with lowercase digits, read from the UTF-8 bytes of the text.
 */
module ByteStrings {
  import opened Wrappers
  import opened Cbor

  // ------------------------------------------------------------------------ UTF-8

  /** The UTF-8 encoding of one character (RFC 3629 section 3). */
  function CharUtf8(c: char): (r: seq<Byte>)
    ensures 1 <= |r| <= 4
    ensures c as int < 0x80 ==> r == [c as int]
    ensures c as int >= 0x80 ==> forall i :: 0 <= i < |r| ==> r[i] >= 0x80
  {
    var n := c as int;
    if n < 0x80 then [n]
    else if n < 0x800 then [0xC0 + n / 0x40, 0x80 + n % 0x40]
    else if n < 0x1_0000 then [0xE0 + n / 0x1000, 0x80 + n / 0x40 % 0x40, 0x80 + n % 0x40]
    else [0xF0 + n / 0x4_0000, 0x80 + n / 0x1000 % 0x40, 0x80 + n / 0x40 % 0x40, 0x80 + n % 0x40]
  }

  /** `as_bytes`: the UTF-8 encoding of a string, character by character. */
  function Utf8(s: string): seq<Byte> {
    if s == [] then [] else CharUtf8(s[0]) + Utf8(s[1..])
  }

  lemma {:induction false} Utf8Concat(a: string, b: string)
    ensures Utf8(a + b) == Utf8(a) + Utf8(b)
  {
    if a != [] {
      assert (a + b)[0] == a[0];
      assert (a + b)[1..] == a[1..] + b;
      Utf8Concat(a[1..], b);
    } else {
      assert a + b == b;
    }
  }

  /** A string of ASCII characters is encoded one byte per character, each its code. */
  lemma {:induction false} Utf8Ascii(s: string)
    requires forall i :: 0 <= i < |s| ==> s[i] as int < 0x80
    ensures |Utf8(s)| == |s| && forall i :: 0 <= i < |s| ==> Utf8(s)[i] == s[i] as int
  {
    if s != [] {
      Utf8Ascii(s[1..]);
      assert Utf8(s) == [s[0] as int] + Utf8(s[1..]);
    }
  }

  // ------------------------------------------------------------------------ base16

  const LOWER_DIGITS: string := "0123456789abcdef"

  /** The lowercase digit for a value below 16. */
  function Digit(n: nat): (c: char)
    requires n < 16
    ensures c as int < 0x80 && IsHexDigit(c as int) && HexValue(c as int) == n
  {
    LOWER_DIGITS[n]
  }

  /** A byte of the text that is an ASCII hex digit of either case. */
  predicate IsHexDigit(x: Byte) {
    '0' as int <= x <= '9' as int || 'a' as int <= x <= 'f' as int || 'A' as int <= x <= 'F' as int
  }

  /** The value of a digit of either case. */
  function HexValue(x: Byte): (n: nat)
    requires IsHexDigit(x)
    ensures n < 16
  {
    if '0' as int <= x <= '9' as int then x - '0' as int
    else if 'a' as int <= x <= 'f' as int then x - 'a' as int + 10
    else x - 'A' as int + 10
  }

  predicate IsLowerHex(c: char) {
    '0' <= c <= '9' || 'a' <= c <= 'f'
  }

  /** `hex::encode`: two lowercase digits per byte, high nibble first. */
  function HexEncode(b: seq<Byte>): (r: string)
    ensures |r| == 2 * |b|
    ensures forall i :: 0 <= i < |r| ==> IsLowerHex(r[i]) && r[i] as int < 0x80
  {
    if b == [] then [] else [Digit(b[0] / 16), Digit(b[0] % 16)] + HexEncode(b[1..])
  }

  /** The errors of `hex::decode` that a `String` argument can reach. */
  datatype HexError = OddLength | InvalidHexCharacter(c: char, index: nat)

  /**
   * `hex::decode`, over the bytes of the text: an odd number of bytes is refused before
   * anything else; then the first byte that is not a digit of either case is reported,
   * cast to a character, with its index.
   */
  function HexDecode(t: seq<Byte>): (r: Result<seq<Byte>, HexError>)
    ensures r.Ok? <==> |t| % 2 == 0 && forall i :: 0 <= i < |t| ==> IsHexDigit(t[i])
    ensures r.Ok? ==> |r.value| * 2 == |t|
    ensures r == Err(OddLength) <==> |t| % 2 == 1
    ensures r.Err? && r.error.InvalidHexCharacter? ==> FirstInvalid(t, r.error.index) && r.error.c == t[r.error.index] as char
  {
    if |t| % 2 == 1 then Err(OddLength) else DecodePairs(t, 0)
  }

  /** `i` is the position of the first byte of `t` that is not a hex digit. */
  predicate FirstInvalid(t: seq<Byte>, i: nat) {
    i < |t| && !IsHexDigit(t[i]) && forall j :: 0 <= j < i ==> IsHexDigit(t[j])
  }

  /** The bytes of an even-length `t`, with indices reported from `offset` on. */
  function DecodePairs(t: seq<Byte>, offset: nat): (r: Result<seq<Byte>, HexError>)
    requires |t| % 2 == 0
    ensures r.Ok? <==> forall i :: 0 <= i < |t| ==> IsHexDigit(t[i])
    ensures r.Ok? ==> |r.value| * 2 == |t|
    ensures r.Err? ==> r.error.InvalidHexCharacter? && r.error.index >= offset
    ensures r.Err? ==> FirstInvalid(t, r.error.index - offset) && r.error.c == t[r.error.index - offset] as char
    decreases |t|
  {
    if t == [] then Ok([])
    else if !IsHexDigit(t[0]) then Err(InvalidHexCharacter(t[0] as char, offset))
    else if !IsHexDigit(t[1]) then Err(InvalidHexCharacter(t[1] as char, offset + 1))
    else
      var rest := DecodePairs(t[2..], offset + 2);
      assert forall i :: 2 <= i < |t| ==> t[i] == t[2..][i - 2];
      if rest.Err? then
        assert FirstInvalid(t[2..], rest.error.index - offset - 2);
        Err(rest.error)
      else
        Ok([HexValue(t[0]) * 16 + HexValue(t[1])] + rest.value)
  }

  /** The digits of a byte read back as that byte. */
  lemma DigitsValue(x: Byte)
    ensures HexValue(Digit(x / 16) as int) * 16 + HexValue(Digit(x % 16) as int) == x
  {
  }

  /** What `hex::encode` writes, `hex::decode` reads back. */
  lemma {:induction false} HexRoundTrip(b: seq<Byte>)
    ensures HexDecode(Utf8(HexEncode(b))) == Ok(b)
  {
    PairsRoundTrip(b, 0);
  }

  lemma {:induction false} PairsRoundTrip(b: seq<Byte>, offset: nat)
    ensures |Utf8(HexEncode(b))| == 2 * |b| && DecodePairs(Utf8(HexEncode(b)), offset) == Ok(b)
  {
    if b != [] {
      var s := HexEncode(b);
      var t := Utf8(s);
      assert s == [Digit(b[0] / 16), Digit(b[0] % 16)] + HexEncode(b[1..]);
      HexEncodeStep(b);
      assert t[2..] == Utf8(HexEncode(b[1..]));
      PairsRoundTrip(b[1..], offset + 2);
      DigitsValue(b[0]);
      assert b == [b[0]] + b[1..];
    }
  }

  /** Uppercase digits are read too: `0A` and `0a` are the same byte. */
  lemma HexCaseExample()
    ensures HexDecode(Utf8("0a")) == Ok([10 as Byte]) && HexDecode(Utf8("0A")) == HexDecode(Utf8("0a"))
    ensures HexEncode([10]) == "0a"
    ensures HexDecode(Utf8("abc")) == Err(OddLength)
    ensures HexDecode(Utf8("0g")) == Err(InvalidHexCharacter('g', 1))
  {
    var upper, lower := Utf8("0A"), Utf8("0a");
    Utf8Ascii("0A");
    Utf8Ascii("0a");
    Utf8Ascii("abc");
    Utf8Ascii("0g");
    assert upper == [0x30, 0x41] && lower == [0x30, 0x61];
    assert upper[2..] == [] && lower[2..] == [];
    assert HexValue(upper[0]) * 16 + HexValue(upper[1]) == 10;
    assert HexValue(lower[0]) * 16 + HexValue(lower[1]) == 10;
    DecodePairsStep(upper, 0);
    DecodePairsStep(lower, 0);
    assert DecodePairs(upper, 0).value == [10 as Byte] + [];
    assert DecodePairs(lower, 0).value == [10 as Byte] + [];
    assert [10 as Byte] + [] == [10 as Byte];
    assert DecodePairs(lower, 0) == Ok([10 as Byte]);
  }

  /**
   * Non-ASCII text is judged by its bytes: `é0` is three bytes and so `OddLength`, and
   * `éé` is refused at byte 0, the first byte of `é` (`C3`) cast to a character, `Ã`.
   */
  lemma HexNonAsciiExample()
    ensures Utf8("\U{e9}") == [0xC3, 0xA9]
    ensures HexDecode(Utf8("\U{e9}0")) == Err(OddLength)
    ensures HexDecode(Utf8("\U{e9}\U{e9}")) == Err(InvalidHexCharacter('\U{c3}', 0))
  {
    var e: string := "\U{e9}";
    assert Utf8(e) == CharUtf8(e[0]) + Utf8([]);
    assert "\U{e9}0" == e + "0";
    Utf8Concat(e, "0");
    Utf8Ascii("0");
    assert "\U{e9}\U{e9}" == e + e;
    Utf8Concat(e, e);
    var t := Utf8("\U{e9}\U{e9}");
    assert t == [0xC3, 0xA9, 0xC3, 0xA9];
    assert !IsHexDigit(t[0]);
  }

  // ------------------------------------------------------------------------- Bytes

  /** The error of a conversion into a fixed-size array from a slice of another length. */
  datatype TryFromSliceError = TryFromSliceError

  datatype Bytes = Bytes(bytes: seq<Byte>)
  {
    /** The conversion from a `Vec<u8>`. */
    static function FromVec(x: seq<Byte>): (r: Bytes)
      ensures r.ToVec() == x
    {
      Bytes(x)
    }

    /** The conversion into a `Vec<u8>`, and `deref`. */
    function ToVec(): seq<Byte> {
      bytes
    }

    /** The conversion into `[u8; n]`: only from exactly `n` bytes. */
    function ToArray(n: nat): (r: Result<seq<Byte>, TryFromSliceError>)
      ensures r.Ok? <==> |ToVec()| == n
      ensures r.Ok? ==> r.value == ToVec()
    {
      if |bytes| == n then Ok(bytes) else Err(TryFromSliceError)
    }

    /** The conversion from a `String`, and `from_str`: the bytes its hex digits spell. */
    static function FromHex(s: string): (r: Result<Bytes, HexError>)
      ensures r.Ok? <==> HexDecode(Utf8(s)).Ok?
      ensures r.Ok? ==> r.value.ToVec() == HexDecode(Utf8(s)).value && Utf8(HexEncode(r.value.ToVec())) == LowerCase(Utf8(s))
      ensures r.Err? ==> r.error == HexDecode(Utf8(s)).error
    {
      var v :- HexDecode(Utf8(s));
      LowerCaseOfDecoded(Utf8(s), 0);
      Ok(Bytes(v))
    }

    /** The conversion into a `String`, and `Display`: lowercase hex. */
    function ToHex(): (r: string)
      ensures FromHex(r) == Ok(this)
    {
      HexRoundTrip(bytes);
      HexEncode(bytes)
    }

    /**
     * The transparent decoding through `ByteVec`: the contents of one byte string, a
     * definite one or the chunks of an indefinite one joined.
     */
    static function Decode(s: seq<Byte>, p: nat): (r: DecodeResult<Bytes>)
      ensures Advances(r, p, |s|)
      ensures r.Ok? <==> ReadByteVec(s, p).Ok?
      ensures r.Ok? ==> r.value.value.ToVec() == ReadByteVec(s, p).value.value && r.value.next == ReadByteVec(s, p).value.next
      ensures ReadBytes(s, p).Ok? ==> r == Ok(Decoded(Bytes(ReadBytes(s, p).value.value), ReadBytes(s, p).value.next))
    {
      var b :- ReadByteVec(s, p);
      Ok(Decoded(Bytes(b.value), b.next))
    }

    function Encoding(): seq<Byte> {
      EncodeBytes(bytes)
    }
  }

  /** An uppercase digit lowered; every other byte is kept. */
  function Lower(x: Byte): Byte {
    if 'A' as int <= x <= 'F' as int then x + 32 else x
  }

  function LowerCase(t: seq<Byte>): (r: seq<Byte>)
    ensures |r| == |t|
  {
    if t == [] then [] else [Lower(t[0])] + LowerCase(t[1..])
  }

  /** The lowercase digit of a digit's value is the digit lowered. */
  lemma DigitOfValue(x: Byte)
    requires IsHexDigit(x)
    ensures Digit(HexValue(x)) as int == Lower(x)
  {
  }

  /** One step of `DecodePairs`: the first two digits give the first byte. */
  lemma DecodePairsStep(t: seq<Byte>, offset: nat)
    requires |t| % 2 == 0 && |t| >= 2 && DecodePairs(t, offset).Ok?
    ensures IsHexDigit(t[0]) && IsHexDigit(t[1]) && DecodePairs(t[2..], offset + 2).Ok?
    ensures DecodePairs(t, offset).value == [HexValue(t[0]) * 16 + HexValue(t[1])] + DecodePairs(t[2..], offset + 2).value
  {
  }

  /** The text of one step of `HexEncode`. */
  lemma HexEncodeStep(b: seq<Byte>)
    requires |b| >= 1
    ensures Utf8(HexEncode(b)) == [Digit(b[0] / 16) as int, Digit(b[0] % 16) as int] + Utf8(HexEncode(b[1..]))
  {
    var hi, lo := Digit(b[0] / 16), Digit(b[0] % 16);
    HexEncodeSplit(b);
    AsciiPair(hi, lo);
  }

  lemma HexEncodeSplit(b: seq<Byte>)
    requires |b| >= 1
    ensures Utf8(HexEncode(b)) == Utf8([Digit(b[0] / 16), Digit(b[0] % 16)]) + Utf8(HexEncode(b[1..]))
  {
    var d: string := [Digit(b[0] / 16), Digit(b[0] % 16)];
    assert HexEncode(b) == d + HexEncode(b[1..]);
    Utf8Concat(d, HexEncode(b[1..]));
  }

  lemma AsciiPair(c: char, d: char)
    requires c as int < 0x80 && d as int < 0x80
    ensures Utf8([c, d]) == [c as int, d as int]
  {
    Utf8Ascii([c, d]);
  }

  lemma LowerCaseStep2(t: seq<Byte>)
    requires |t| >= 2
    ensures LowerCase(t) == [Lower(t[0]), Lower(t[1])] + LowerCase(t[2..])
  {
    var rest := LowerCase(t[2..]);
    assert t[1..][1..] == t[2..];
    assert LowerCase(t[1..]) == [Lower(t[1])] + rest;
    assert [Lower(t[0])] + ([Lower(t[1])] + rest) == [Lower(t[0]), Lower(t[1])] + rest;
  }

  /** One step of `HexEncode` and of `LowerCase`. */
  lemma LowerCaseStep(b: seq<Byte>, t: seq<Byte>)
    requires |b| >= 1 && |t| >= 2 && IsHexDigit(t[0]) && IsHexDigit(t[1])
    requires b[0] == HexValue(t[0]) * 16 + HexValue(t[1]) && Utf8(HexEncode(b[1..])) == LowerCase(t[2..])
    ensures Utf8(HexEncode(b)) == LowerCase(t)
  {
    var hi, lo := HexValue(t[0]), HexValue(t[1]);
    NibbleSplit(hi, lo);
    assert b[0] / 16 == hi && b[0] % 16 == lo;
    DigitOfValue(t[0]);
    DigitOfValue(t[1]);
    HexEncodeStep(b);
    LowerCaseStep2(t);
    assert [Digit(b[0] / 16) as int, Digit(b[0] % 16) as int] == [Lower(t[0]), Lower(t[1])];
  }

  lemma NibbleSplit(hi: nat, lo: nat)
    requires hi < 16 && lo < 16
    ensures (hi * 16 + lo) / 16 == hi && (hi * 16 + lo) % 16 == lo
  {
  }

  /** Writing decoded hex back gives the input with its digits lowered. */
  lemma {:induction false} LowerCaseOfDecoded(t: seq<Byte>, offset: nat)
    requires |t| % 2 == 0 && DecodePairs(t, offset).Ok?
    ensures Utf8(HexEncode(DecodePairs(t, offset).value)) == LowerCase(t)
    decreases |t|
  {
    if t != [] {
      DecodePairsStep(t, offset);
      LowerCaseOfDecoded(t[2..], offset + 2);
      var v := DecodePairs(t, offset).value;
      assert v[1..] == DecodePairs(t[2..], offset + 2).value;
      LowerCaseStep(v, t);
    }
  }

  /** `5F 41 01 41 02 FF`, an indefinite byte string of two one-byte chunks, is the bytes `01 02`. */
  lemma BytesChunkedExample()
    ensures Bytes.Decode([0x5F, 0x41, 0x01, 0x41, 0x02, 0xFF], 0) == Ok(Decoded(Bytes([0x01, 0x02]), 6))
  {
    var s: seq<Byte> := [0x5F, 0x41, 0x01, 0x41, 0x02, 0xFF];
    assert ReadChunks(s, 5) == Ok(Decoded([], 6));
    assert ReadHead(s, 3) == Ok(HeadInfo(BYTE_STRING, 1, 1, 4));
    assert s[4..5] == [0x02] && [0x02] + [] == [0x02 as Byte];
    assert ReadChunks(s, 3) == Ok(Decoded([0x02], 6));
    assert ReadHead(s, 1) == Ok(HeadInfo(BYTE_STRING, 1, 1, 2));
    assert s[2..3] == [0x01] && [0x01] + [0x02] == [0x01, 0x02 as Byte];
    assert ReadChunks(s, 1) == Ok(Decoded([0x01, 0x02], 6));
  }

  lemma BytesDecodeEncoding(b: Bytes, s: seq<Byte>, p: nat)
    requires |s| < U64_LIMIT && IsAt(s, p, b.Encoding())
    ensures Bytes.Decode(s, p) == Ok(Decoded(b, p + |b.Encoding()|))
  {
    ReadBytesRoundTrip(s, p, b.bytes);
  }
}
