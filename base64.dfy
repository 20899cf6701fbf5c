/** Base64 as in section 4 of RFC 4648 (alphabet A-Z a-z 0-9 + /, '=' padding): what
    `Convert.ToBase64String` writes and the strict form of what `Convert.FromBase64String` reads. */
module Base64 {
  import opened Wrappers
  import opened Values

  const Pad: char := '='

  /** The character of a 6-bit value. */
  function Alphabet(v: bv8): (c: char)
    requires v < 64
    ensures c != Pad
  {
    if v < 26 then ('A' as int + v as int) as char
    else if v < 52 then ('a' as int + (v as int - 26)) as char
    else if v < 62 then ('0' as int + (v as int - 52)) as char
    else if v == 62 then '+'
    else '/'
  }

  /** The 6-bit value of an alphabet character, None for any other character (including '='). */
  function SextetOf(c: char): (r: Option<bv8>)
    ensures r.Some? ==> r.value < 64
  {
    if 'A' <= c <= 'Z' then Some((c as int - 'A' as int) as bv8)
    else if 'a' <= c <= 'z' then Some((c as int - 'a' as int + 26) as bv8)
    else if '0' <= c <= '9' then Some((c as int - '0' as int + 52) as bv8)
    else if c == '+' then Some(62)
    else if c == '/' then Some(63)
    else None
  }

  lemma SextetOfAlphabet(v: bv8)
    requires v < 64
    ensures SextetOf(Alphabet(v)) == Some(v)
  {
    if v < 26 {
      SextetOfUpper(v);
    } else if v < 52 {
      SextetOfLower(v);
    } else if v < 62 {
      SextetOfDigit(v);
    }
  }

  lemma SextetOfUpper(v: bv8)
    requires v < 26
    ensures SextetOf(Alphabet(v)) == Some(v)
  {
  }

  lemma SextetOfLower(v: bv8)
    requires 26 <= v < 52
    ensures SextetOf(Alphabet(v)) == Some(v)
  {
  }

  lemma SextetOfDigit(v: bv8)
    requires 52 <= v < 62
    ensures SextetOf(Alphabet(v)) == Some(v)
  {
  }

  /** Three bytes as four characters. */
  function EncodeTriple(b0: byte, b1: byte, b2: byte): (s: string)
    ensures |s| == 4 && Pad !in s
  {
    [Alphabet(b0 >> 2), Alphabet(((b0 & 3) << 4) | (b1 >> 4)),
     Alphabet(((b1 & 15) << 2) | (b2 >> 6)), Alphabet(b2 & 63)]
  }

  lemma TripleSextets(b0: byte, b1: byte, b2: byte)
    ensures var v0, v1, v2, v3 := b0 >> 2, ((b0 & 3) << 4) | (b1 >> 4), ((b1 & 15) << 2) | (b2 >> 6), b2 & 63;
      (v0 << 2) | (v1 >> 4) == b0 && ((v1 & 15) << 4) | (v2 >> 2) == b1 && ((v2 & 3) << 6) | v3 == b2
  {
  }

  lemma DecodeTriple(b0: byte, b1: byte, b2: byte, last: bool)
    ensures DecodeQuad(EncodeTriple(b0, b1, b2), last) == Some([b0, b1, b2])
  {
    var v0, v1, v2, v3 := b0 >> 2, ((b0 & 3) << 4) | (b1 >> 4), ((b1 & 15) << 2) | (b2 >> 6), b2 & 63;
    SextetOfAlphabet(v0);
    SextetOfAlphabet(v1);
    SextetOfAlphabet(v2);
    SextetOfAlphabet(v3);
    TripleSextets(b0, b1, b2);
  }

  /** A final single byte: two characters and "==". */
  function EncodeSingle(b0: byte): (s: string)
    ensures |s| == 4
  {
    [Alphabet(b0 >> 2), Alphabet((b0 & 3) << 4), Pad, Pad]
  }

  /** A final pair of bytes: three characters and "=". */
  function EncodePair(b0: byte, b1: byte): (s: string)
    ensures |s| == 4
  {
    [Alphabet(b0 >> 2), Alphabet(((b0 & 3) << 4) | (b1 >> 4)), Alphabet((b1 & 15) << 2), Pad]
  }

  /** The encoding: full groups of three bytes, then a final group of one or two bytes padded with
      "==" or "=". */
  function Encode(b: seq<byte>): (s: string)
    ensures |s| == (|b| + 2) / 3 * 4
    decreases |b|
  {
    if |b| == 0 then ""
    else if |b| == 1 then EncodeSingle(b[0])
    else if |b| == 2 then EncodePair(b[0], b[1])
    else EncodeTriple(b[0], b[1], b[2]) + Encode(b[3..])
  }

  /** One group of four characters; padding is accepted only in the last group. */
  function DecodeQuad(q: string, last: bool): (r: Option<seq<byte>>)
    requires |q| == 4
    ensures r.Some? ==> 1 <= |r.value| <= 3
    ensures r.Some? && !last ==> |r.value| == 3
  {
    match (SextetOf(q[0]), SextetOf(q[1]), SextetOf(q[2]), SextetOf(q[3]))
    case (Some(v0), Some(v1), Some(v2), Some(v3)) =>
      Some([(v0 << 2) | (v1 >> 4), ((v1 & 15) << 4) | (v2 >> 2), ((v2 & 3) << 6) | v3])
    case (Some(v0), Some(v1), Some(v2), None) =>
      if last && q[3] == Pad then Some([(v0 << 2) | (v1 >> 4), ((v1 & 15) << 4) | (v2 >> 2)]) else None
    case (Some(v0), Some(v1), None, None) =>
      if last && q[2] == Pad && q[3] == Pad then Some([(v0 << 2) | (v1 >> 4)]) else None
    case _ => None
  }

  /** The decoding: None unless the text is a sequence of complete, well-formed groups. */
  function Decode(s: string): (r: Option<seq<byte>>)
    ensures |s| % 4 != 0 ==> r == None
    decreases |s|
  {
    if |s| == 0 then Some([])
    else if |s| < 4 then None
    else
      match DecodeQuad(s[..4], |s| == 4)
      case None => None
      case Some(head) =>
        match Decode(s[4..])
        case None => None
        case Some(tail) => Some(head + tail)
  }

  lemma DecodeQuadSingle(b0: byte)
    ensures DecodeQuad(EncodeSingle(b0), true) == Some([b0])
  {
    SextetOfAlphabet(b0 >> 2);
    SextetOfAlphabet((b0 & 3) << 4);
    TripleSextets(b0, 0, 0);
  }

  lemma DecodeQuadPair(b0: byte, b1: byte)
    ensures DecodeQuad(EncodePair(b0, b1), true) == Some([b0, b1])
  {
    SextetOfAlphabet(b0 >> 2);
    SextetOfAlphabet(((b0 & 3) << 4) | (b1 >> 4));
    SextetOfAlphabet((b1 & 15) << 2);
    TripleSextets(b0, b1, 0);
  }

  lemma DecodeLastQuad(q: string, bytes: seq<byte>)
    requires |q| == 4 && DecodeQuad(q, true) == Some(bytes)
    ensures Decode(q) == Some(bytes)
  {
    assert q[..4] == q && q[4..] == [];
    assert bytes + [] == bytes;
  }

  lemma DecodeEncodeSingle(b0: byte)
    ensures Decode(Encode([b0])) == Some([b0])
  {
    var q := EncodeSingle(b0);
    assert Encode([b0]) == q;
    DecodeQuadSingle(b0);
    DecodeLastQuad(q, [b0]);
  }

  lemma DecodeEncodePair(b0: byte, b1: byte)
    ensures Decode(Encode([b0, b1])) == Some([b0, b1])
  {
    var q := EncodePair(b0, b1);
    assert Encode([b0, b1]) == q;
    DecodeQuadPair(b0, b1);
    DecodeLastQuad(q, [b0, b1]);
  }

  /** Decoding undoes encoding, for every byte sequence including the empty one. */
  lemma {:induction false} DecodeEncode(b: seq<byte>)
    ensures Decode(Encode(b)) == Some(b)
    decreases |b|
  {
    if |b| == 1 {
      assert b == [b[0]];
      DecodeEncodeSingle(b[0]);
    } else if |b| == 2 {
      assert b == [b[0], b[1]];
      DecodeEncodePair(b[0], b[1]);
    } else if |b| >= 3 {
      DecodeEncode(b[3..]);
      DecodeEncodeGroup(b);
    }
  }

  /** One step of the round trip: a leading group of three bytes is decoded in front of the rest. */
  lemma DecodeEncodeGroup(b: seq<byte>)
    requires |b| >= 3 && Decode(Encode(b[3..])) == Some(b[3..])
    ensures Decode(Encode(b)) == Some(b)
  {
    var s := Encode(b);
    var head := EncodeTriple(b[0], b[1], b[2]);
    var tail := b[3..];
    assert s == head + Encode(tail);
    assert s[..4] == head;
    assert s[4..] == Encode(tail);
    DecodeTriple(b[0], b[1], b[2], |s| == 4);
    DecodeCons(s, [b[0], b[1], b[2]], tail);
    SplitThree(b);
  }

  lemma SplitThree<T>(b: seq<T>)
    requires |b| >= 3
    ensures [b[0], b[1], b[2]] + b[3..] == b
  {
  }

  /** A well-formed first group followed by a decodable rest decodes to the two joined. */
  lemma DecodeCons(s: string, head: seq<byte>, tail: seq<byte>)
    requires |s| >= 4 && DecodeQuad(s[..4], |s| == 4) == Some(head) && Decode(s[4..]) == Some(tail)
    ensures Decode(s) == Some(head + tail)
  {
  }
}
