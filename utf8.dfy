/**
  UTF-8, the encoding `Buffer.from(string)` applies before the credential is
  Base64-encoded. A Dafny `char` is a Unicode scalar value, so every character
  has an encoding of one to four bytes.
 */
module Utf8 {
  import opened Bytes

  /** The bytes of one scalar value: one byte below U+0080, then two, three or four. */
  function EncodeScalar(c: char): (b: seq<byte>)
    ensures 1 <= |b| <= 4
  {
    var n := c as int;
    if n < 0x80 then [n as byte]
    else if n < 0x800 then [(0xC0 + n / 0x40) as byte, (0x80 + n % 0x40) as byte]
    else if n < 0x1_0000 then
      [(0xE0 + n / 0x1000) as byte, (0x80 + n / 0x40 % 0x40) as byte, (0x80 + n % 0x40) as byte]
    else
      [ (0xF0 + n / 0x4_0000) as byte, (0x80 + n / 0x1000 % 0x40) as byte,
        (0x80 + n / 0x40 % 0x40) as byte, (0x80 + n % 0x40) as byte ]
  }

  /** The bytes of a string, character after character. */
  function Encode(s: string): (b: seq<byte>)
    ensures |s| <= |b| <= 4 * |s|
  {
    if s == [] then [] else EncodeScalar(s[0]) + Encode(s[1..])
  }

  /** The length a leading byte announces; continuation bytes `10xxxxxx` announce none. */
  function SequenceLength(b0: byte): nat
  {
    if b0 < 0x80 then 1
    else if b0 < 0xC0 then 0
    else if b0 < 0xE0 then 2
    else if b0 < 0xF0 then 3
    else 4
  }

  predicate IsContinuation(b: byte) { 0x80 <= b < 0xC0 }

  /** The scalar value a well-formed sequence of one to four bytes carries. */
  function ScalarValue(b: seq<byte>): int
    requires 1 <= |b| <= 4
  {
    if |b| == 1 then b[0] as int
    else if |b| == 2 then (b[0] as int - 0xC0) * 0x40 + (b[1] as int - 0x80)
    else if |b| == 3 then (b[0] as int - 0xE0) * 0x1000 + (b[1] as int - 0x80) * 0x40 + (b[2] as int - 0x80)
    else (b[0] as int - 0xF0) * 0x4_0000 + (b[1] as int - 0x80) * 0x1000 + (b[2] as int - 0x80) * 0x40 + (b[3] as int - 0x80)
  }

  lemma Split2(n: int)
    requires 0x80 <= n < 0x800
    ensures 0xC0 <= 0xC0 + n / 0x40 < 0xE0 && 0x80 <= 0x80 + n % 0x40 < 0xC0
    ensures n / 0x40 * 0x40 + n % 0x40 == n
  {
  }

  lemma Split3(n: int)
    requires 0x800 <= n < 0x1_0000
    ensures 0xE0 <= 0xE0 + n / 0x1000 < 0xF0
    ensures n / 0x1000 * 0x1000 + n / 0x40 % 0x40 * 0x40 + n % 0x40 == n
  {
  }

  lemma Split4(n: int)
    requires 0x1_0000 <= n < 0x11_0000
    ensures 0xF0 <= 0xF0 + n / 0x4_0000 < 0x100
    ensures n / 0x4_0000 * 0x4_0000 + n / 0x1000 % 0x40 * 0x1000 + n / 0x40 % 0x40 * 0x40 + n % 0x40 == n
  {
  }

  /** The length of the shortest encoding of `c`, the only one UTF-8 allows. */
  function ShortestLength(c: char): nat
  {
    if c as int < 0x80 then 1 else if c as int < 0x800 then 2 else if c as int < 0x1_0000 then 3 else 4
  }

  /**
    `b` is the well-formed encoding of `c`: as long as the shortest form (so
    no overlong form), announcing its own length, and carrying `c`.
   */
  ghost predicate WellFormedFor(b: seq<byte>, c: char) {
    && 1 <= |b| <= 4
    && |b| == ShortestLength(c)
    && SequenceLength(b[0]) == |b|
    && (forall k :: 1 <= k < |b| ==> IsContinuation(b[k]))
    && ScalarValue(b) == c as int
  }

  /**
    The encoding of a character is well formed: it has the shortest length for
    the character, its leading byte announces that length, the other bytes are
    continuation bytes, and the bytes carry the character's scalar value.
   */
  lemma EncodeScalarWellFormed(c: char)
    ensures WellFormedFor(EncodeScalar(c), c)
  {
    var n := c as int;
    if n < 0x80 {
    } else if n < 0x800 {
      Split2(n);
    } else if n < 0x1_0000 {
      Split3(n);
    } else {
      Split4(n);
    }
  }

  /** An ASCII string is encoded one byte per character, each byte the character's code. */
  lemma {:induction false} AsciiEncoding(s: string)
    requires forall k :: 0 <= k < |s| ==> s[k] as int < 0x80
    ensures |Encode(s)| == |s|
    ensures forall k :: 0 <= k < |s| ==> Encode(s)[k] as int == s[k] as int
  {
    if s != [] {
      AsciiEncoding(s[1..]);
    }
  }

  /** The encoding of a concatenation is the concatenation of the encodings. */
  lemma {:induction false} EncodeAppend(s: string, t: string)
    ensures Encode(s + t) == Encode(s) + Encode(t)
  {
    if s == [] {
      assert s + t == t;
    } else {
      assert (s + t)[1..] == s[1..] + t;
      EncodeAppend(s[1..], t);
    }
  }
}
