/**
 * Base64 as defined in section 4 of RFC 4648 (standard alphabet, `=` padding),
 * together with the ASCII codec that turns the credential string into bytes.
 * The encoder is what `base64.b64encode` computes; the decoder is a reference
 * definition used to state that the encoding loses nothing.
 */
module Base64 {
  import opened Wrappers

  type Byte = bv8

  const Pad: char := '='

  /** Character for a six-bit value, following table 1 of RFC 4648:
      `A`-`Z` for 0-25, `a`-`z` for 26-51, `0`-`9` for 52-61, then `+` and `/`. */
  function SextetChar(v: Byte): (c: char)
    requires v < 64
  {
    var n := v as int;
    if n < 26 then ('A' as int + n) as char
    else if n < 52 then ('a' as int + (n - 26)) as char
    else if n < 62 then ('0' as int + (n - 52)) as char
    else if n == 62 then '+'
    else '/'
  }

  /** Six-bit value of an alphabet character; None for anything else, the pad included. */
  function CharSextet(c: char): (r: Option<Byte>)
    ensures r.Some? ==> r.value < 64
  {
    if 'A' <= c <= 'Z' then Some((c as int - 'A' as int) as Byte)
    else if 'a' <= c <= 'z' then Some((c as int - 'a' as int + 26) as Byte)
    else if '0' <= c <= '9' then Some((c as int - '0' as int + 52) as Byte)
    else if c == '+' then Some(62)
    else if c == '/' then Some(63)
    else None
  }

  lemma SextetRoundTrip(v: Byte)
    requires v < 64
    ensures CharSextet(SextetChar(v)) == Some(v)
    ensures SextetChar(v) != Pad
  {
  }

  // The four six-bit values of a 24-bit group, most significant first.
  function Sextet0(a: Byte): (v: Byte) ensures v < 64 { a >> 2 }
  function Sextet1(a: Byte, b: Byte): (v: Byte) ensures v < 64 { ((a & 3) << 4) | (b >> 4) }
  function Sextet2(b: Byte, c: Byte): (v: Byte) ensures v < 64 { ((b & 15) << 2) | (c >> 6) }
  function Sextet3(c: Byte): (v: Byte) ensures v < 64 { c & 63 }

  // The three bytes of a group, rebuilt from its sextets.
  function Octet0(s0: Byte, s1: Byte): Byte { (s0 << 2) | (s1 >> 4) }
  function Octet1(s1: Byte, s2: Byte): Byte { (s1 << 4) | (s2 >> 2) }
  function Octet2(s2: Byte, s3: Byte): Byte { (s2 << 6) | s3 }

  /** Splitting a group into sextets and joining them again gives back its bytes;
      a missing final byte reads as zero bits. */
  lemma GroupBits(a: Byte, b: Byte, c: Byte)
    ensures Octet0(Sextet0(a), Sextet1(a, b)) == a
    ensures Octet1(Sextet1(a, b), Sextet2(b, c)) == b
    ensures Octet2(Sextet2(b, c), Sextet3(c)) == c
    ensures Sextet1(a, 0) & 15 == 0 && Sextet2(b, 0) & 3 == 0
  {
  }

  /** Joining sextets into bytes and splitting the bytes again gives back the sextets;
      in a padded group this holds when the spare low bits are zero. */
  lemma SextetBits(s0: Byte, s1: Byte, s2: Byte, s3: Byte)
    requires s0 < 64 && s1 < 64 && s2 < 64 && s3 < 64
    ensures Sextet0(Octet0(s0, s1)) == s0
    ensures Sextet1(Octet0(s0, s1), Octet1(s1, s2)) == s1
    ensures Sextet2(Octet1(s1, s2), Octet2(s2, s3)) == s2
    ensures Sextet3(Octet2(s2, s3)) == s3
    ensures s1 & 15 == 0 ==> Sextet1(Octet0(s0, s1), 0) == s1
    ensures s2 & 3 == 0 ==> Sextet2(Octet1(s1, s2), 0) == s2
  {
  }

  /** Four characters for three input bytes (a full 24-bit group). */
  function EncodeGroup(a: Byte, b: Byte, c: Byte): seq<char>
  {
    [SextetChar(Sextet0(a)), SextetChar(Sextet1(a, b)), SextetChar(Sextet2(b, c)), SextetChar(Sextet3(c))]
  }

  /** Final quantum of 16 bits: three characters and one pad. */
  function EncodeTwo(a: Byte, b: Byte): seq<char>
  {
    [SextetChar(Sextet0(a)), SextetChar(Sextet1(a, b)), SextetChar(Sextet2(b, 0)), Pad]
  }

  /** Final quantum of 8 bits: two characters and two pads. */
  function EncodeOne(a: Byte): seq<char>
  {
    [SextetChar(Sextet0(a)), SextetChar(Sextet1(a, 0)), Pad, Pad]
  }

  /** `base64.b64encode`: every full group of three bytes becomes four characters, and a
      short final group is padded to four. */
  function Encode(bytes: seq<Byte>): (r: seq<char>)
    ensures |r| == 4 * ((|bytes| + 2) / 3)
    decreases |bytes|
  {
    if |bytes| == 0 then []
    else if |bytes| == 1 then EncodeOne(bytes[0])
    else if |bytes| == 2 then EncodeTwo(bytes[0], bytes[1])
    else EncodeGroup(bytes[0], bytes[1], bytes[2]) + Encode(bytes[3..])
  }

  /** Every character of an encoding is the pad or a character of the alphabet. */
  lemma {:induction false} EncodeUsesAlphabet(bytes: seq<Byte>)
    ensures forall i :: 0 <= i < |Encode(bytes)| ==> Encode(bytes)[i] == Pad || CharSextet(Encode(bytes)[i]).Some?
    decreases |bytes|
  {
    if |bytes| == 1 {
      SextetRoundTrip(Sextet0(bytes[0]));
      SextetRoundTrip(Sextet1(bytes[0], 0));
    } else if |bytes| == 2 {
      SextetRoundTrip(Sextet0(bytes[0]));
      SextetRoundTrip(Sextet1(bytes[0], bytes[1]));
      SextetRoundTrip(Sextet2(bytes[1], 0));
    } else if |bytes| > 2 {
      SextetRoundTrip(Sextet0(bytes[0]));
      SextetRoundTrip(Sextet1(bytes[0], bytes[1]));
      SextetRoundTrip(Sextet2(bytes[1], bytes[2]));
      SextetRoundTrip(Sextet3(bytes[2]));
      EncodeUsesAlphabet(bytes[3..]);
    }
  }

  /** Bytes of a group of four alphabet characters. */
  function DecodeGroup(q: seq<char>): (r: Option<seq<Byte>>)
    requires |q| == 4
    ensures r.Some? ==> |r.value| == 3
  {
    var s0, s1, s2, s3 := CharSextet(q[0]), CharSextet(q[1]), CharSextet(q[2]), CharSextet(q[3]);
    if s0.Some? && s1.Some? && s2.Some? && s3.Some? then
      Some([Octet0(s0.value, s1.value), Octet1(s1.value, s2.value), Octet2(s2.value, s3.value)])
    else None
  }

  /** Bytes of the last group, which may end in one or two pads. The bits of the last
      character that fall beyond the final byte must be zero, as the encoder writes them. */
  function DecodeLast(q: seq<char>): (r: Option<seq<Byte>>)
    requires |q| == 4
    ensures r.Some? ==> 1 <= |r.value| <= 3
  {
    var s0, s1, s2 := CharSextet(q[0]), CharSextet(q[1]), CharSextet(q[2]);
    if q[2] == Pad && q[3] == Pad then
      if s0.Some? && s1.Some? && s1.value & 15 == 0 then Some([Octet0(s0.value, s1.value)]) else None
    else if q[3] == Pad then
      if s0.Some? && s1.Some? && s2.Some? && s2.value & 3 == 0 then
        Some([Octet0(s0.value, s1.value), Octet1(s1.value, s2.value)])
      else None
    else DecodeGroup(q)
  }

  /** Reference decoder: None for text that is not a padded Base64 encoding. */
  function Decode(s: seq<char>): (r: Option<seq<Byte>>)
    decreases |s|
  {
    if |s| == 0 then Some([])
    else if |s| < 4 then None
    else if |s| == 4 then DecodeLast(s)
    else
      match DecodeGroup(s[..4])
      case None => None
      case Some(head) =>
        match Decode(s[4..])
        case None => None
        case Some(tail) => Some(head + tail)
  }

  lemma GroupRoundTrip(a: Byte, b: Byte, c: Byte)
    ensures DecodeGroup(EncodeGroup(a, b, c)) == Some([a, b, c])
    ensures DecodeLast(EncodeGroup(a, b, c)) == Some([a, b, c])
  {
    SextetRoundTrip(Sextet0(a));
    SextetRoundTrip(Sextet1(a, b));
    SextetRoundTrip(Sextet2(b, c));
    SextetRoundTrip(Sextet3(c));
    GroupBits(a, b, c);
  }

  lemma OneRoundTrip(a: Byte)
    ensures DecodeLast(EncodeOne(a)) == Some([a])
  {
    SextetRoundTrip(Sextet0(a));
    SextetRoundTrip(Sextet1(a, 0));
    GroupBits(a, 0, 0);
  }

  lemma TwoRoundTrip(a: Byte, b: Byte)
    ensures DecodeLast(EncodeTwo(a, b)) == Some([a, b])
  {
    SextetRoundTrip(Sextet0(a));
    SextetRoundTrip(Sextet1(a, b));
    SextetRoundTrip(Sextet2(b, 0));
    GroupBits(a, b, 0);
    var q := EncodeTwo(a, b);
    assert q[2] != Pad && q[3] == Pad;
  }

  /** Decoding an encoding gives back the bytes: the encoding loses nothing. */
  lemma {:induction false} DecodeEncode(bytes: seq<Byte>)
    ensures Decode(Encode(bytes)) == Some(bytes)
    decreases |bytes|
  {
    if |bytes| == 1 {
      OneRoundTrip(bytes[0]);
      assert bytes == [bytes[0]];
    } else if |bytes| == 2 {
      TwoRoundTrip(bytes[0], bytes[1]);
      assert bytes == [bytes[0], bytes[1]];
    } else if |bytes| >= 3 {
      var head := EncodeGroup(bytes[0], bytes[1], bytes[2]);
      var tail := Encode(bytes[3..]);
      assert Encode(bytes) == head + tail;
      GroupRoundTrip(bytes[0], bytes[1], bytes[2]);
      DecodeEncode(bytes[3..]);
      DecodeGroupThen(head, tail);
      assert bytes == [bytes[0], bytes[1], bytes[2]] + bytes[3..];
    }
  }

  /** A full group followed by a decodable rest decodes to the group's bytes followed by the rest's. */
  lemma DecodeGroupThen(head: seq<char>, tail: seq<char>)
    requires |head| == 4 && DecodeGroup(head).Some? && DecodeLast(head) == DecodeGroup(head)
    requires Decode(tail).Some?
    ensures Decode(head + tail) == Some(DecodeGroup(head).value + Decode(tail).value)
  {
    if tail == [] {
      assert head + tail == head;
      assert DecodeGroup(head).value + [] == DecodeGroup(head).value;
    } else {
      assert (head + tail)[..4] == head;
      assert (head + tail)[4..] == tail;
    }
  }

  /** Encoding the bytes of a decodable alphabet character gives the character back. */
  lemma CharRoundTrip(c: char)
    requires CharSextet(c).Some?
    ensures SextetChar(CharSextet(c).value) == c
  {
    if 'A' <= c <= 'Z' {
      ByteOfInt(c as int - 'A' as int);
    } else if 'a' <= c <= 'z' {
      ByteOfInt(c as int - 'a' as int + 26);
    } else if '0' <= c <= '9' {
      ByteOfInt(c as int - '0' as int + 52);
    }
  }

  lemma ByteOfInt(n: int)
    requires 0 <= n < 64
    ensures (n as Byte) as int == n
  {
  }

  lemma GroupInverse(q: seq<char>)
    requires |q| == 4 && DecodeGroup(q).Some?
    ensures var b := DecodeGroup(q).value; EncodeGroup(b[0], b[1], b[2]) == q
  {
    var s0, s1, s2, s3 := CharSextet(q[0]).value, CharSextet(q[1]).value, CharSextet(q[2]).value, CharSextet(q[3]).value;
    CharRoundTrip(q[0]);
    CharRoundTrip(q[1]);
    CharRoundTrip(q[2]);
    CharRoundTrip(q[3]);
    SextetBits(s0, s1, s2, s3);
  }

  lemma OneInverse(q: seq<char>)
    requires |q| == 4 && q[2] == Pad && q[3] == Pad && DecodeLast(q).Some?
    ensures Encode(DecodeLast(q).value) == q
  {
    var s0, s1 := CharSextet(q[0]).value, CharSextet(q[1]).value;
    CharRoundTrip(q[0]);
    CharRoundTrip(q[1]);
    SextetBits(s0, s1, 0, 0);
    assert DecodeLast(q).value == [Octet0(s0, s1)];
  }

  lemma TwoInverse(q: seq<char>)
    requires |q| == 4 && q[2] != Pad && q[3] == Pad && DecodeLast(q).Some?
    ensures Encode(DecodeLast(q).value) == q
  {
    var s0, s1, s2 := CharSextet(q[0]).value, CharSextet(q[1]).value, CharSextet(q[2]).value;
    CharRoundTrip(q[0]);
    CharRoundTrip(q[1]);
    CharRoundTrip(q[2]);
    SextetBits(s0, s1, s2, 0);
    assert DecodeLast(q).value == [Octet0(s0, s1), Octet1(s1, s2)];
  }

  lemma LastInverse(q: seq<char>)
    requires |q| == 4 && DecodeLast(q).Some?
    ensures Encode(DecodeLast(q).value) == q
  {
    if q[2] == Pad && q[3] == Pad {
      OneInverse(q);
    } else if q[3] == Pad {
      TwoInverse(q);
    } else {
      GroupInverse(q);
      var b := DecodeGroup(q).value;
      assert Encode(b) == EncodeGroup(b[0], b[1], b[2]) + Encode(b[3..]);
    }
  }

  /** Encoding a full group followed by more bytes starts with the group's four characters. */
  lemma EncodeGroupThen(head: seq<Byte>, tail: seq<Byte>)
    requires |head| == 3
    ensures Encode(head + tail) == EncodeGroup(head[0], head[1], head[2]) + Encode(tail)
  {
    assert (head + tail)[3..] == tail;
  }

  /** Every text the decoder accepts is the encoding of what it decodes to: the decoder
      accepts only canonical encodings, so each byte string has exactly one. */
  lemma {:induction false} EncodeDecode(s: seq<char>)
    requires Decode(s).Some?
    ensures Encode(Decode(s).value) == s
    decreases |s|
  {
    if |s| == 4 {
      LastInverse(s);
    } else if |s| > 4 {
      var head, tail := DecodeGroup(s[..4]).value, Decode(s[4..]).value;
      GroupInverse(s[..4]);
      EncodeDecode(s[4..]);
      EncodeGroupThen(head, tail);
      assert s == s[..4] + s[4..];
    }
  }

  /** Two byte strings with the same encoding are equal. */
  lemma EncodeInjective(x: seq<Byte>, y: seq<Byte>)
    requires Encode(x) == Encode(y)
    ensures x == y
  {
    DecodeEncode(x);
    DecodeEncode(y);
  }

  predicate IsAscii(s: string)
  {
    forall i :: 0 <= i < |s| ==> s[i] as int < 128
  }

  /** `str.encode("ascii")`: one byte per character, or None where Python raises
      UnicodeEncodeError because some character is outside ASCII. */
  function AsciiEncode(s: string): (r: Option<seq<Byte>>)
    ensures r.Some? <==> IsAscii(s)
    ensures r.Some? ==> |r.value| == |s| && forall i :: 0 <= i < |s| ==> r.value[i] as int == s[i] as int
    decreases |s|
  {
    if |s| == 0 then Some([])
    else if s[0] as int >= 128 then None
    else
      match AsciiEncode(s[1..])
      case None => None
      case Some(tail) => Some([s[0] as int as Byte] + tail)
  }
}
