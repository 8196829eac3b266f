/**
 * Character sets, reduced to what the fixed-length engine needs from
 * java.nio.charset: encoding a string to bytes and decoding bytes to a
 * string.
 *
 * `Latin1` is the single-byte identity encoding (ISO-8859-1): every char
 * below 256 is the byte of the same value, any other char becomes '?'.
 * `Custom` stands for any other charset (MS932, UTF-8, ...): the per-char
 * encoder is a parameter whose only known property is that every char
 * encodes to at least one byte, and decoding is an arbitrary function.
 */
module Charsets {

  newtype byte = x: int | 0 <= x < 0x100

  /** An encoder of single chars; like String.getBytes, never empty. */
  type CharEncoder = f: char -> seq<byte> | forall c :: |f(c)| >= 1 witness (c: char) => [0 as byte]

  datatype Charset = Latin1 | Custom(encodeChar: CharEncoder, decodeBytes: seq<byte> -> string)

  /** The byte ISO-8859-1 writes for an unmappable char. */
  const REPLACEMENT: byte := 63

  /** Whether a char has its own byte under Latin1. */
  predicate IsLatin1Char(c: char)
  {
    (c as int) < 0x100
  }

  /** A string every char of which Latin1 maps to itself. */
  predicate Representable(s: string)
  {
    forall i :: 0 <= i < |s| ==> IsLatin1Char(s[i])
  }

  /** The bytes of one char. */
  function EncodeChar(cs: Charset, c: char): (r: seq<byte>)
    ensures |r| >= 1
    ensures cs.Latin1? ==> |r| == 1
    ensures cs.Latin1? && IsLatin1Char(c) ==> r[0] as int == c as int
  {
    match cs
    case Latin1 => if IsLatin1Char(c) then [(c as int) as byte] else [REPLACEMENT]
    case Custom(enc, _) => enc(c)
  }

  /** String.getBytes(charset): the concatenation of the bytes of every char. */
  function Encode(cs: Charset, s: string): (r: seq<byte>)
    ensures |r| >= |s|
    ensures cs.Latin1? ==> |r| == |s|
  {
    if s == [] then [] else EncodeChar(cs, s[0]) + Encode(cs, s[1..])
  }

  /** new String(bytes, charset). */
  function Decode(cs: Charset, bs: seq<byte>): (r: string)
    ensures cs.Latin1? ==> |r| == |bs|
  {
    match cs
    case Latin1 => Latin1Decode(bs)
    case Custom(_, dec) => dec(bs)
  }

  /** ISO-8859-1 decoding: every byte becomes the char of the same value. */
  function Latin1Decode(bs: seq<byte>): (r: string)
    ensures |r| == |bs|
  {
    if bs == [] then [] else [(bs[0] as int) as char] + Latin1Decode(bs[1..])
  }

  /** Under Latin1 the i-th char decoded is the char of the i-th byte's value. */
  lemma {:induction false} Latin1DecodeAt(bs: seq<byte>, i: int)
    requires 0 <= i < |bs|
    ensures Decode(Latin1, bs)[i] == (bs[i] as int) as char
  {
    if i > 0 {
      Latin1DecodeAt(bs[1..], i - 1);
    }
  }

  /** Encoding distributes over concatenation. */
  lemma {:induction false} EncodeAppend(cs: Charset, s: string, t: string)
    ensures Encode(cs, s + t) == Encode(cs, s) + Encode(cs, t)
  {
    if s == [] {
      assert s + t == t;
    } else {
      var u := s + t;
      assert u != [] && u[0] == s[0] && u[1..] == s[1..] + t;
      calc {
        Encode(cs, u);
        EncodeChar(cs, s[0]) + Encode(cs, s[1..] + t);
        { EncodeAppend(cs, s[1..], t); }
        EncodeChar(cs, s[0]) + (Encode(cs, s[1..]) + Encode(cs, t));
        (EncodeChar(cs, s[0]) + Encode(cs, s[1..])) + Encode(cs, t);
      }
    }
  }

  /** Under Latin1 the i-th byte is the encoding of the i-th char. */
  lemma {:induction false} Latin1EncodeAt(s: string, i: int)
    requires 0 <= i < |s|
    ensures Encode(Latin1, s)[i] == EncodeChar(Latin1, s[i])[0]
  {
    if i > 0 {
      Latin1EncodeAt(s[1..], i - 1);
    }
  }

  /** Decoding what Latin1 encoded gives the string back, when every char fits in a byte. */
  lemma Latin1DecodeEncode(s: string)
    requires Representable(s)
    ensures Decode(Latin1, Encode(Latin1, s)) == s
  {
    var r := Decode(Latin1, Encode(Latin1, s));
    forall i | 0 <= i < |s|
      ensures r[i] == s[i]
    {
      Latin1EncodeAt(s, i);
      Latin1DecodeAt(Encode(Latin1, s), i);
    }
  }

  /** Under Latin1 every char of a decoded string fits in a byte. */
  lemma Latin1DecodeRepresentable(bs: seq<byte>)
    ensures Representable(Decode(Latin1, bs))
  {
    forall i | 0 <= i < |bs|
      ensures IsLatin1Char(Decode(Latin1, bs)[i])
    {
      Latin1DecodeAt(bs, i);
    }
  }

  /** Encoding what Latin1 decoded gives the bytes back. */
  lemma Latin1EncodeDecode(bs: seq<byte>)
    ensures Encode(Latin1, Decode(Latin1, bs)) == bs
  {
    var s := Decode(Latin1, bs);
    var r := Encode(Latin1, s);
    forall i | 0 <= i < |bs|
      ensures r[i] == bs[i]
    {
      Latin1EncodeAt(s, i);
      Latin1DecodeAt(bs, i);
    }
  }

  /** Under Latin1 a string made of one char repeated encodes to that char's byte repeated. */
  lemma {:induction false} Latin1EncodeRepeat(c: char, n: nat)
    ensures Encode(Latin1, seq(n, _ => c)) == seq(n, _ => EncodeChar(Latin1, c)[0])
  {
    if n > 0 {
      assert seq(n, _ => c)[1..] == seq(n - 1, _ => c);
      Latin1EncodeRepeat(c, n - 1);
    }
  }
}
