/**
  The Base64 encoding of section 4 of RFC 4648: each group of three bytes
  becomes four characters of the 64-character alphabet of its Table 1, and a
  final group of one or two bytes is padded with `=` to four characters. This
  is what `Buffer.prototype.toString('base64')` produces.
 */
module Base64 {
  import opened Wrappers
  import opened Bytes

  /** The character Table 1 of RFC 4648 assigns to the 6-bit value `v`. */
  function SextetChar(v: int): (c: char)
    requires 0 <= v < 64
  {
    if v < 26 then ('A' as int + v) as char
    else if v < 52 then ('a' as int + (v - 26)) as char
    else if v < 62 then ('0' as int + (v - 52)) as char
    else if v == 62 then '+'
    else '/'
  }

  predicate IsAlphabetChar(c: char) {
    'A' <= c <= 'Z' || 'a' <= c <= 'z' || '0' <= c <= '9' || c == '+' || c == '/'
  }

  /** The 6-bit value of an alphabet character; other characters, `=` among them, have none. */
  function SextetValue(c: char): (r: Option<int>)
    ensures r.Some? <==> IsAlphabetChar(c)
    ensures r.Some? ==> 0 <= r.value < 64 && SextetChar(r.value) == c
  {
    if 'A' <= c <= 'Z' then Some(c as int - 'A' as int)
    else if 'a' <= c <= 'z' then Some(c as int - 'a' as int + 26)
    else if '0' <= c <= '9' then Some(c as int - '0' as int + 52)
    else if c == '+' then Some(62)
    else if c == '/' then Some(63)
    else None
  }

  /** Every character of the table is an alphabet character naming its own value. */
  lemma SextetRoundTrip(v: int)
    requires 0 <= v < 64
    ensures IsAlphabetChar(SextetChar(v)) && SextetValue(SextetChar(v)) == Some(v)
  {
  }

  // ---------------------------------------------------------------------------
  // Encoding

  /** Three bytes, 24 bits, as four characters of six bits each, most significant first. */
  function EncodeGroup(b0: byte, b1: byte, b2: byte): (s: string)
    ensures |s| == 4 && forall k :: 0 <= k < 4 ==> IsAlphabetChar(s[k])
  {
    SextetRoundTrip(b0 as int / 4);
    SextetRoundTrip(b0 as int % 4 * 16 + b1 as int / 16);
    SextetRoundTrip(b1 as int % 16 * 4 + b2 as int / 64);
    SextetRoundTrip(b2 as int % 64);
    [ SextetChar(b0 as int / 4),
      SextetChar(b0 as int % 4 * 16 + b1 as int / 16),
      SextetChar(b1 as int % 16 * 4 + b2 as int / 64),
      SextetChar(b2 as int % 64) ]
  }

  /** A final single byte: two characters (the low four bits zero) and `==`. */
  function EncodeTail1(b0: byte): (s: string)
    ensures |s| == 4 && IsAlphabetChar(s[0]) && IsAlphabetChar(s[1]) && s[2] == '=' && s[3] == '='
    ensures SextetValue(s[1]).Some? && SextetValue(s[1]).value % 16 == 0
  {
    SextetRoundTrip(b0 as int % 4 * 16);
    [SextetChar(b0 as int / 4), SextetChar(b0 as int % 4 * 16), '=', '=']
  }

  /** A final pair of bytes: three characters (the low two bits zero) and `=`. */
  function EncodeTail2(b0: byte, b1: byte): (s: string)
    ensures |s| == 4 && IsAlphabetChar(s[0]) && IsAlphabetChar(s[1]) && IsAlphabetChar(s[2]) && s[3] == '='
    ensures SextetValue(s[2]).Some? && SextetValue(s[2]).value % 4 == 0
  {
    SextetRoundTrip(b1 as int % 16 * 4);
    [ SextetChar(b0 as int / 4),
      SextetChar(b0 as int % 4 * 16 + b1 as int / 16),
      SextetChar(b1 as int % 16 * 4),
      '=' ]
  }

  /** The four characters of a group carry its 24 bits, six per character, most significant first. */
  lemma GroupBits(b0: byte, b1: byte, b2: byte)
    ensures var s := EncodeGroup(b0, b1, b2);
      SextetValue(s[0]).value * 0x4_0000 + SextetValue(s[1]).value * 0x1000
      + SextetValue(s[2]).value * 0x40 + SextetValue(s[3]).value
      == b0 as int * 0x1_0000 + b1 as int * 0x100 + b2 as int
  {
    SextetRoundTrip(b0 as int / 4);
    SextetRoundTrip(b0 as int % 4 * 16 + b1 as int / 16);
    SextetRoundTrip(b1 as int % 16 * 4 + b2 as int / 64);
    SextetRoundTrip(b2 as int % 64);
  }

  /** The two characters of a final byte carry its 8 bits followed by four zero bits. */
  lemma Tail1Bits(b0: byte)
    ensures var s := EncodeTail1(b0);
      SextetValue(s[0]).value * 0x40 + SextetValue(s[1]).value == b0 as int * 0x10
  {
    SextetRoundTrip(b0 as int / 4);
    SextetRoundTrip(b0 as int % 4 * 16);
  }

  /** The three characters of a final pair carry its 16 bits followed by two zero bits. */
  lemma Tail2Bits(b0: byte, b1: byte)
    ensures var s := EncodeTail2(b0, b1);
      SextetValue(s[0]).value * 0x1000 + SextetValue(s[1]).value * 0x40 + SextetValue(s[2]).value
      == (b0 as int * 0x100 + b1 as int) * 4
  {
    SextetRoundTrip(b0 as int / 4);
    SextetRoundTrip(b0 as int % 4 * 16 + b1 as int / 16);
    SextetRoundTrip(b1 as int % 16 * 4);
  }

  /** Padding, if any, closes the text: no `=` before the last two characters, and none before an alphabet character. */
  ghost predicate WellPadded(s: string) {
    && (forall k :: 0 <= k < |s| ==> IsAlphabetChar(s[k]) || s[k] == '=')
    && (forall k :: 0 <= k < |s| - 2 ==> s[k] != '=')
    && (|s| >= 2 && s[|s| - 2] == '=' ==> s[|s| - 1] == '=')
  }

  /** Base64 of `data`: `4 * ceil(n / 3)` characters of the alphabet and `=` padding. */
  function Encode(data: seq<byte>): (s: string)
    ensures |s| == 4 * ((|data| + 2) / 3)
    ensures WellPadded(s)
    decreases |data|
  {
    if |data| == 0 then ""
    else if |data| == 1 then EncodeTail1(data[0])
    else if |data| == 2 then EncodeTail2(data[0], data[1])
    else EncodeGroup(data[0], data[1], data[2]) + Encode(data[3..])
  }

  // ---------------------------------------------------------------------------
  // Decoding, the inverse the encoding is checked against

  /** Four alphabet characters as three bytes. */
  function DecodeGroup(q: string): Option<seq<byte>>
    requires |q| == 4
  {
    var v0, v1, v2, v3 := SextetValue(q[0]), SextetValue(q[1]), SextetValue(q[2]), SextetValue(q[3]);
    if v0.Some? && v1.Some? && v2.Some? && v3.Some? then
      Some([ (v0.value * 4 + v1.value / 16) as byte,
             (v1.value % 16 * 16 + v2.value / 4) as byte,
             (v2.value % 4 * 64 + v3.value) as byte ])
    else None
  }

  /**
    The last four characters: a full group, or a padded one. Padded groups
    whose discarded bits are not zero are rejected, as section 3.5 of RFC 4648
    allows, so that every accepted text is the encoding of what it decodes to.
   */
  function DecodeFinal(q: string): Option<seq<byte>>
    requires |q| == 4
  {
    var v0, v1, v2 := SextetValue(q[0]), SextetValue(q[1]), SextetValue(q[2]);
    if q[2] == '=' && q[3] == '=' then
      if v0.Some? && v1.Some? && v1.value % 16 == 0 then
        Some([(v0.value * 4 + v1.value / 16) as byte])
      else None
    else if q[3] == '=' then
      if v0.Some? && v1.Some? && v2.Some? && v2.value % 4 == 0 then
        Some([(v0.value * 4 + v1.value / 16) as byte, (v1.value % 16 * 16 + v2.value / 4) as byte])
      else None
    else DecodeGroup(q)
  }

  /** Canonical Base64 text back to bytes; anything else is rejected. */
  function Decode(s: string): Option<seq<byte>>
    decreases |s|
  {
    if |s| == 0 then Some([])
    else if |s| % 4 != 0 then None
    else if |s| == 4 then DecodeFinal(s)
    else
      var g, rest := DecodeGroup(s[..4]), Decode(s[4..]);
      if g.Some? && rest.Some? then Some(g.value + rest.value) else None
  }

  // ---------------------------------------------------------------------------
  // Round trips

  /** The bit arithmetic of a full group is undone by the decoder's. */
  lemma GroupArithmetic(b0: int, b1: int, b2: int)
    requires 0 <= b0 < 256 && 0 <= b1 < 256 && 0 <= b2 < 256
    ensures b0 / 4 * 4 + (b0 % 4 * 16 + b1 / 16) / 16 == b0
    ensures (b0 % 4 * 16 + b1 / 16) % 16 * 16 + (b1 % 16 * 4 + b2 / 64) / 4 == b1
    ensures (b1 % 16 * 4 + b2 / 64) % 4 * 64 + b2 % 64 == b2
  {
  }

  lemma GroupRoundTrip(b0: byte, b1: byte, b2: byte)
    ensures DecodeGroup(EncodeGroup(b0, b1, b2)) == Some([b0, b1, b2])
    ensures DecodeFinal(EncodeGroup(b0, b1, b2)) == Some([b0, b1, b2])
  {
    var v0, v1, v2, v3 := b0 as int / 4, b0 as int % 4 * 16 + b1 as int / 16, b1 as int % 16 * 4 + b2 as int / 64, b2 as int % 64;
    SextetRoundTrip(v0); SextetRoundTrip(v1); SextetRoundTrip(v2); SextetRoundTrip(v3);
    GroupArithmetic(b0 as int, b1 as int, b2 as int);
  }

  lemma Tail1RoundTrip(b0: byte)
    ensures DecodeFinal(EncodeTail1(b0)) == Some([b0])
  {
    SextetRoundTrip(b0 as int / 4);
    SextetRoundTrip(b0 as int % 4 * 16);
  }

  lemma Tail2RoundTrip(b0: byte, b1: byte)
    ensures DecodeFinal(EncodeTail2(b0, b1)) == Some([b0, b1])
  {
    SextetRoundTrip(b0 as int / 4);
    SextetRoundTrip(b0 as int % 4 * 16 + b1 as int / 16);
    SextetRoundTrip(b1 as int % 16 * 4);
    GroupArithmetic(b0 as int, b1 as int, 0);
  }

  /** A text of several groups decodes as its first group followed by the rest. */
  lemma DecodeUnfold(s: string)
    requires |s| > 4 && |s| % 4 == 0
    ensures Decode(s) ==
      if DecodeGroup(s[..4]).Some? && Decode(s[4..]).Some? then Some(DecodeGroup(s[..4]).value + Decode(s[4..]).value) else None
  {
  }

  lemma DecodeCons(g: string, rest: string)
    requires |g| == 4 && |rest| > 0 && |rest| % 4 == 0
    ensures Decode(g + rest) ==
      if DecodeGroup(g).Some? && Decode(rest).Some? then Some(DecodeGroup(g).value + Decode(rest).value) else None
  {
    var s := g + rest;
    DecodeUnfold(s);
    assert s[..4] == g;
    assert s[4..] == rest;
  }

  /** Encoding an input of more than three bytes is one group followed by the encoding of the rest. */
  lemma EncodeCons(data: seq<byte>)
    requires |data| > 3
    ensures Encode(data) == EncodeGroup(data[0], data[1], data[2]) + Encode(data[3..])
  {
  }

  lemma EncodeRestLength(data: seq<byte>)
    requires |data| > 3
    ensures |Encode(data[3..])| > 0 && |Encode(data[3..])| % 4 == 0
  {
    var n := |data[3..]|;
    assert |Encode(data[3..])| == 4 * ((n + 2) / 3);
  }

  /** One, two or three bytes form a single final group. */
  lemma DecodeEncode1(b0: byte)
    ensures Decode(Encode([b0])) == Some([b0])
  {
    Tail1RoundTrip(b0);
  }

  lemma DecodeEncode2(b0: byte, b1: byte)
    ensures Decode(Encode([b0, b1])) == Some([b0, b1])
  {
    Tail2RoundTrip(b0, b1);
  }

  lemma DecodeEncode3(b0: byte, b1: byte, b2: byte)
    ensures Decode(Encode([b0, b1, b2])) == Some([b0, b1, b2])
  {
    var data := [b0, b1, b2];
    assert data[3..] == [];
    assert Encode(data) == EncodeGroup(b0, b1, b2);
    GroupRoundTrip(b0, b1, b2);
  }

  /** An input of more than three bytes decodes as its first group followed by the rest. */
  lemma DecodeEncodeUnfold(data: seq<byte>)
    requires |data| > 3
    ensures
      var g, rest := EncodeGroup(data[0], data[1], data[2]), Encode(data[3..]);
      Decode(Encode(data)) ==
        if DecodeGroup(g).Some? && Decode(rest).Some? then Some(DecodeGroup(g).value + Decode(rest).value) else None
  {
    EncodeCons(data);
    EncodeRestLength(data);
    DecodeCons(EncodeGroup(data[0], data[1], data[2]), Encode(data[3..]));
  }

  /** An input of more than three bytes round-trips when the bytes after its first group do. */
  lemma DecodeEncodeCons(data: seq<byte>)
    requires |data| > 3
    requires Decode(Encode(data[3..])) == Some(data[3..])
    ensures Decode(Encode(data)) == Some(data)
  {
    var g, rest := EncodeGroup(data[0], data[1], data[2]), Encode(data[3..]);
    GroupRoundTrip(data[0], data[1], data[2]);
    assert DecodeGroup(g) == Some([data[0], data[1], data[2]]);
    assert Decode(rest) == Some(data[3..]);
    SplitFirstGroup(data);
    DecodeEncodeUnfold(data);
  }

  lemma SplitFirstGroup(data: seq<byte>)
    requires |data| > 3
    ensures [data[0], data[1], data[2]] + data[3..] == data
  {
  }

  /** Decoding the encoding gives back the input. */
  lemma {:induction false} DecodeEncode(data: seq<byte>)
    ensures Decode(Encode(data)) == Some(data)
    decreases |data|
  {
    if |data| == 1 {
      DecodeEncode1(data[0]);
      assert [data[0]] == data;
    } else if |data| == 2 {
      DecodeEncode2(data[0], data[1]);
      assert [data[0], data[1]] == data;
    } else if |data| == 3 {
      DecodeEncode3(data[0], data[1], data[2]);
      assert [data[0], data[1], data[2]] == data;
    } else if |data| > 3 {
      DecodeEncode(data[3..]);
      DecodeEncodeCons(data);
    }
  }

  // ---------------------------------------------------------------------------
  // The other direction: every text the decoder accepts is the encoding of its result

  /** The decoder's bit arithmetic on four 6-bit values is undone by the encoder's. */
  lemma SextetArithmetic(v0: int, v1: int, v2: int, v3: int)
    requires 0 <= v0 < 64 && 0 <= v1 < 64 && 0 <= v2 < 64 && 0 <= v3 < 64
    ensures var b0, b1, b2 := v0 * 4 + v1 / 16, v1 % 16 * 16 + v2 / 4, v2 % 4 * 64 + v3;
      && b0 / 4 == v0
      && b0 % 4 * 16 + b1 / 16 == v1
      && b1 % 16 * 4 + b2 / 64 == v2
      && b2 % 64 == v3
  {
  }

  lemma EncodeDecodeGroup(q: string)
    requires |q| == 4 && DecodeGroup(q).Some?
    ensures var x := DecodeGroup(q).value; |x| == 3 && EncodeGroup(x[0], x[1], x[2]) == q
  {
    var v0, v1, v2, v3 := SextetValue(q[0]).value, SextetValue(q[1]).value, SextetValue(q[2]).value, SextetValue(q[3]).value;
    SextetArithmetic(v0, v1, v2, v3);
  }

  lemma EncodeDecodeTail1(q: string)
    requires |q| == 4 && q[2] == '=' && q[3] == '=' && DecodeFinal(q).Some?
    ensures Encode(DecodeFinal(q).value) == q
  {
    var x := DecodeFinal(q).value;
    var v0, v1 := SextetValue(q[0]).value, SextetValue(q[1]).value;
    SextetArithmetic(v0, v1, 0, 0);
    assert Encode(x) == EncodeTail1(x[0]);
  }

  lemma EncodeDecodeTail2(q: string)
    requires |q| == 4 && q[2] != '=' && q[3] == '=' && DecodeFinal(q).Some?
    ensures Encode(DecodeFinal(q).value) == q
  {
    var x := DecodeFinal(q).value;
    var v0, v1, v2 := SextetValue(q[0]).value, SextetValue(q[1]).value, SextetValue(q[2]).value;
    var b0, b1 := (v0 * 4 + v1 / 16) as byte, (v1 % 16 * 16 + v2 / 4) as byte;
    assert x == [b0, b1];
    SextetArithmetic(v0, v1, v2, 0);
    assert EncodeTail2(b0, b1) == q by {
      assert SextetChar(b0 as int / 4) == q[0];
      assert SextetChar(b0 as int % 4 * 16 + b1 as int / 16) == q[1];
      assert SextetChar(b1 as int % 16 * 4) == q[2];
    }
    assert Encode(x) == EncodeTail2(b0, b1);
  }

  lemma EncodeDecodeFullFinal(q: string)
    requires |q| == 4 && q[3] != '=' && DecodeFinal(q).Some?
    ensures Encode(DecodeFinal(q).value) == q
  {
    var x := DecodeFinal(q).value;
    assert DecodeFinal(q) == DecodeGroup(q);
    EncodeDecodeGroup(q);
    assert x[3..] == [];
    assert Encode(x) == EncodeGroup(x[0], x[1], x[2]) + Encode(x[3..]);
  }

  lemma EncodeDecodeFinal(q: string)
    requires |q| == 4 && DecodeFinal(q).Some?
    ensures Encode(DecodeFinal(q).value) == q
  {
    if q[2] == '=' && q[3] == '=' {
      EncodeDecodeTail1(q);
    } else if q[3] == '=' {
      EncodeDecodeTail2(q);
    } else {
      EncodeDecodeFullFinal(q);
    }
  }

  /** A text of several groups that decodes is its first group followed by a text that decodes. */
  lemma DecodeSplit(s: string)
    requires |s| > 4 && Decode(s).Some?
    ensures |s| % 4 == 0 && DecodeGroup(s[..4]).Some? && Decode(s[4..]).Some?
    ensures Decode(s).value == DecodeGroup(s[..4]).value + Decode(s[4..]).value
  {
  }

  /** Every text the decoder accepts is the encoding of the bytes it yields: padding and spare bits are canonical. */
  lemma {:induction false} EncodeDecode(s: string)
    requires Decode(s).Some?
    ensures Encode(Decode(s).value) == s
    decreases |s|
  {
    if |s| == 4 {
      EncodeDecodeFinal(s);
    } else if |s| > 4 {
      DecodeSplit(s);
      var x, rest := DecodeGroup(s[..4]).value, Decode(s[4..]).value;
      EncodeDecodeGroup(s[..4]);
      EncodeDecode(s[4..]);
      EncodeDecodeStep(s, x, rest);
    }
  }

  /** One step of the induction: the first group and the rest re-encode to the whole text. */
  lemma EncodeDecodeStep(s: string, x: seq<byte>, rest: seq<byte>)
    requires |s| > 4 && |x| == 3 && EncodeGroup(x[0], x[1], x[2]) == s[..4] && Encode(rest) == s[4..]
    ensures Encode(x + rest) == s
  {
    assert |rest| > 0;
    EncodeDecodeCons(x, rest);
    assert s[..4] + s[4..] == s;
  }

  lemma EncodeDecodeCons(x: seq<byte>, rest: seq<byte>)
    requires |x| == 3 && |rest| > 0
    ensures Encode(x + rest) == EncodeGroup(x[0], x[1], x[2]) + Encode(rest)
  {
    var data := x + rest;
    assert data[3..] == rest;
  }
}
