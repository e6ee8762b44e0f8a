/**
 * The URL-safe base64 alphabet of section 5 of RFC 4648, with the trailing
 * `=` padding stripped, as Django's `urlsafe_base64_encode` emits it, and the
 * decoder that `urlsafe_base64_decode` applies to such text.
 */
module Base64Url {
  import opened Wrappers

  type Byte = b: int | 0 <= b < 256
  type Sextet = v: int | 0 <= v < 64

  /** The 64 characters of the "base64url" alphabet: A-Z, a-z, 0-9, '-' and '_'. */
  predicate IsUrlSafe(c: char) {
    ('A' <= c <= 'Z') || ('a' <= c <= 'z') || ('0' <= c <= '9') || c == '-' || c == '_'
  }

  function SextetChar(v: Sextet): (c: char)
    ensures IsUrlSafe(c)
  {
    if v < 26 then (65 + v) as char
    else if v < 52 then (97 + v - 26) as char
    else if v < 62 then (48 + v - 52) as char
    else if v == 62 then '-'
    else '_'
  }

  function CharSextet(c: char): (r: Option<Sextet>)
    ensures r.Some? <==> IsUrlSafe(c)
    ensures r.Some? ==> SextetChar(r.value) == c
  {
    if 'A' <= c <= 'Z' then Some(c as int - 65)
    else if 'a' <= c <= 'z' then Some(c as int - 97 + 26)
    else if '0' <= c <= '9' then Some(c as int - 48 + 52)
    else if c == '-' then Some(62)
    else if c == '_' then Some(63)
    else None
  }

  lemma CharSextetInverse(v: Sextet)
    ensures CharSextet(SextetChar(v)) == Some(v)
  {
  }

  /** Three bytes become four sextets, most significant bits first. */
  function EncodeGroup(b0: Byte, b1: Byte, b2: Byte): string {
    [SextetChar(b0 / 4), SextetChar((b0 % 4) * 16 + b1 / 16),
     SextetChar((b1 % 16) * 4 + b2 / 64), SextetChar(b2 % 64)]
  }

  /** `base64.urlsafe_b64encode(bs).rstrip(b"=")`: a one-byte tail gives two characters, a two-byte tail three. */
  predicate AllUrlSafe(s: string) {
    forall i :: 0 <= i < |s| ==> IsUrlSafe(s[i])
  }

  function Encode(bs: seq<Byte>): (s: string)
    ensures AllUrlSafe(s)
    ensures |s| == (4 * |bs| + 2) / 3
    decreases |bs|
  {
    if |bs| >= 3 then EncodeGroup(bs[0], bs[1], bs[2]) + Encode(bs[3..])
    else EncodeTail(bs)
  }

  /** A final one or two bytes become two or three characters; the padding is dropped. */
  function EncodeTail(bs: seq<Byte>): (s: string)
    requires |bs| < 3
    ensures AllUrlSafe(s)
    ensures |s| == (4 * |bs| + 2) / 3
  {
    if |bs| == 2 then [SextetChar(bs[0] / 4), SextetChar((bs[0] % 4) * 16 + bs[1] / 16), SextetChar((bs[1] % 16) * 4)]
    else if |bs| == 1 then [SextetChar(bs[0] / 4), SextetChar((bs[0] % 4) * 16)]
    else []
  }

  function Byte0(c0: Sextet, c1: Sextet): Byte { c0 * 4 + c1 / 16 }
  function Byte1(c1: Sextet, c2: Sextet): Byte { (c1 % 16) * 16 + c2 / 4 }
  function Byte2(c2: Sextet, c3: Sextet): Byte { (c2 % 4) * 64 + c3 }

  /**
   * Decoding of unpadded text.  A length of 1 modulo 4 cannot come from any
   * byte string and is rejected, as is any character outside the alphabet;
   * the unused low bits of a short final group are ignored.
   */
  function Decode(s: string): (r: Option<seq<Byte>>)
    decreases |s|
  {
    if |s| < 4 then DecodeTail(s)
    else
      var c0 := CharSextet(s[0]);
      var c1 := CharSextet(s[1]);
      var c2 := CharSextet(s[2]);
      var c3 := CharSextet(s[3]);
      if c0.None? || c1.None? || c2.None? || c3.None? then None
      else
        match Decode(s[4..])
        case None => None
        case Some(rest) =>
          Some([Byte0(c0.value, c1.value), Byte1(c1.value, c2.value), Byte2(c2.value, c3.value)] + rest)
  }

  lemma AllUrlSafeSplit(s: string)
    requires |s| >= 4
    ensures AllUrlSafe(s) <==> IsUrlSafe(s[0]) && IsUrlSafe(s[1]) && IsUrlSafe(s[2]) && IsUrlSafe(s[3]) && AllUrlSafe(s[4..])
  {
    if IsUrlSafe(s[0]) && IsUrlSafe(s[1]) && IsUrlSafe(s[2]) && IsUrlSafe(s[3]) && AllUrlSafe(s[4..]) {
      forall i | 0 <= i < |s|
        ensures IsUrlSafe(s[i])
      {
        if i >= 4 {
          assert s[i] == s[4..][i - 4];
        }
      }
    }
  }

  /** The final group of fewer than four characters: two give one byte, three give two. */
  function DecodeTail(s: string): (r: Option<seq<Byte>>)
    requires |s| < 4
    ensures r.Some? <==> |s| != 1 && AllUrlSafe(s)
    ensures r.Some? ==> |r.value| == 3 * |s| / 4
  {
    if |s| == 0 then Some([])
    else if |s| == 1 then None
    else
      var c0 := CharSextet(s[0]);
      var c1 := CharSextet(s[1]);
      if c0.None? || c1.None? then None
      else if |s| == 2 then Some([Byte0(c0.value, c1.value)])
      else
        var c2 := CharSextet(s[2]);
        if c2.None? then None
        else Some([Byte0(c0.value, c1.value), Byte1(c1.value, c2.value)])
  }

  /** Decoding accepts exactly the texts an encoding could produce the length of, in the alphabet. */
  lemma {:induction false} DecodeDomain(s: string)
    ensures Decode(s).Some? <==> |s| % 4 != 1 && AllUrlSafe(s)
    ensures Decode(s).Some? ==> |Decode(s).value| == 3 * |s| / 4
    decreases |s|
  {
    if |s| >= 4 {
      AllUrlSafeSplit(s);
      DecodeDomain(s[4..]);
    }
  }

  lemma GroupArithmetic(b0: Byte, b1: Byte, b2: Byte)
    ensures Byte0(b0 / 4, (b0 % 4) * 16 + b1 / 16) == b0
    ensures Byte1((b0 % 4) * 16 + b1 / 16, (b1 % 16) * 4 + b2 / 64) == b1
    ensures Byte2((b1 % 16) * 4 + b2 / 64, b2 % 64) == b2
  {
    var c1 := (b0 % 4) * 16 + b1 / 16;
    assert c1 / 16 == b0 % 4 && c1 % 16 == b1 / 16;
    var c2 := (b1 % 16) * 4 + b2 / 64;
    assert c2 / 4 == b1 % 16 && c2 % 4 == b2 / 64;
  }

  /** A leading full group decodes back to its three bytes, ahead of whatever the rest decodes to. */
  lemma DecodeLeadingGroup(b0: Byte, b1: Byte, b2: Byte, rest: string)
    ensures Decode(EncodeGroup(b0, b1, b2) + rest) ==
      match Decode(rest)
      case None => None
      case Some(tail) => Some([b0, b1, b2] + tail)
  {
    var s := EncodeGroup(b0, b1, b2) + rest;
    assert s[4..] == rest;
    CharSextetInverse(b0 / 4);
    CharSextetInverse((b0 % 4) * 16 + b1 / 16);
    CharSextetInverse((b1 % 16) * 4 + b2 / 64);
    CharSextetInverse(b2 % 64);
    GroupArithmetic(b0, b1, b2);
  }

  lemma DecodeTwoByteTail(b0: Byte, b1: Byte)
    ensures Decode([SextetChar(b0 / 4), SextetChar((b0 % 4) * 16 + b1 / 16), SextetChar((b1 % 16) * 4)]) == Some([b0, b1])
  {
    CharSextetInverse(b0 / 4);
    CharSextetInverse((b0 % 4) * 16 + b1 / 16);
    CharSextetInverse((b1 % 16) * 4);
    GroupArithmetic(b0, b1, 0);
  }

  lemma DecodeOneByteTail(b0: Byte)
    ensures Decode([SextetChar(b0 / 4), SextetChar((b0 % 4) * 16)]) == Some([b0])
  {
    CharSextetInverse(b0 / 4);
    CharSextetInverse((b0 % 4) * 16);
    GroupArithmetic(b0, 0, 0);
  }

  /** Decoding inverts encoding on every byte string. */
  lemma {:induction false} DecodeEncode(bs: seq<Byte>)
    ensures Decode(Encode(bs)) == Some(bs)
    decreases |bs|
  {
    if |bs| >= 3 {
      assert Encode(bs) == EncodeGroup(bs[0], bs[1], bs[2]) + Encode(bs[3..]);
      DecodeEncode(bs[3..]);
      DecodeLeadingGroup(bs[0], bs[1], bs[2], Encode(bs[3..]));
      assert [bs[0], bs[1], bs[2]] + bs[3..] == bs;
    } else if |bs| == 2 {
      DecodeTwoByteTail(bs[0], bs[1]);
      assert [bs[0], bs[1]] == bs;
    } else if |bs| == 1 {
      DecodeOneByteTail(bs[0]);
      assert [bs[0]] == bs;
    }
  }

  /** Consequently, different byte strings never share an encoding. */
  lemma EncodeInjective(a: seq<Byte>, b: seq<Byte>)
    ensures Encode(a) == Encode(b) ==> a == b
  {
    DecodeEncode(a);
    DecodeEncode(b);
  }

  /**
   * The unused low bits of a final character are ignored: "MR" and the
   * canonical "MQ" both decode to the single byte 0x31, the digit '1'.
   */
  lemma TrailingBitsIgnored()
    ensures Decode("MR") == Some([0x31])
    ensures Decode("MQ") == Some([0x31])
    ensures Encode([0x31]) == "MQ"
  {
    assert CharSextet('M') == Some(12);
    assert CharSextet('R') == Some(17);
    assert CharSextet('Q') == Some(16);
  }
}
