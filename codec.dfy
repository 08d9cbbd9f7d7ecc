/**
 * The conversion between big integers and base64 text used for every
 * ciphertext on the wire: `bigintToBase64` writes the integer in hex,
 * pads it to whole bytes and base64-encodes those bytes; `base64ToBigint`
 * decodes the base64 the way Node's `Buffer` does, writes the bytes back
 * in hex and reads that as a `BigInt`.
 */
module Codec {
  import opened Wrappers

  type Byte = b: int | 0 <= b < 256
  type Sextet = s: int | 0 <= s < 64

  // ---- hexadecimal ----

  predicate IsHexChar(c: char) {
    '0' <= c <= '9' || 'a' <= c <= 'f'
  }

  predicate AllHex(h: string) {
    forall k :: 0 <= k < |h| ==> IsHexChar(h[k])
  }

  /** The lower-case hex digit for `d`. */
  function HexChar(d: nat): (c: char)
    requires d < 16
    ensures IsHexChar(c)
  {
    if d < 10 then ('0' as int + d) as char else ('a' as int + d - 10) as char
  }

  function HexDigitValue(c: char): (d: nat)
    requires IsHexChar(c)
    ensures d < 16
  {
    if c <= '9' then c as int - '0' as int else c as int - 'a' as int + 10
  }

  lemma {:induction false} HexDigitValueOfChar(d: nat)
    requires d < 16
    ensures HexDigitValue(HexChar(d)) == d
  {
  }

  /** The number a hex string denotes, most significant digit first. */
  function HexValue(h: string): nat
    requires AllHex(h)
  {
    if h == [] then 0 else HexValue(h[..|h| - 1]) * 16 + HexDigitValue(h[|h| - 1])
  }

  /** `x.toString(16)`: no leading zero, and "0" for zero. */
  function ToHex(x: nat): (h: string)
    ensures |h| >= 1 && AllHex(h)
    ensures h[0] == '0' ==> x == 0
  {
    if x < 16 then [HexChar(x)] else ToHex(x / 16) + [HexChar(x % 16)]
  }

  lemma {:induction false} HexValueOfToHex(x: nat)
    ensures HexValue(ToHex(x)) == x
  {
    if x < 16 {
      HexDigitValueOfChar(x);
    } else {
      var h := ToHex(x);
      assert h[..|h| - 1] == ToHex(x / 16);
      HexValueOfToHex(x / 16);
      HexDigitValueOfChar(x % 16);
    }
  }

  /** A leading zero digit does not change the value. */
  lemma {:induction false} HexValueLeadingZero(h: string)
    requires AllHex(h)
    ensures AllHex("0" + h) && HexValue("0" + h) == HexValue(h)
    decreases |h|
  {
    var z := "0" + h;
    assert AllHex(z) by {
      forall k | 0 <= k < |z|
        ensures IsHexChar(z[k])
      {
        if k > 0 {
          assert z[k] == h[k - 1];
        }
      }
    }
    if h != [] {
      assert z[..|z| - 1] == "0" + h[..|h| - 1];
      HexValueLeadingZero(h[..|h| - 1]);
    }
  }

  /** `if (hex.length % 2) hex = "0" + hex`. */
  function PadEven(h: string): (p: string)
    requires AllHex(h)
    ensures AllHex(p) && |p| % 2 == 0 && |h| <= |p| <= |h| + 1
    ensures HexValue(p) == HexValue(h)
  {
    if |h| % 2 == 1 then HexValueLeadingZero(h); "0" + h else h
  }

  /** `hex.match(/../g).map((h) => parseInt(h, 16))`: one byte per pair of digits. */
  function HexPairs(h: string): (bytes: seq<Byte>)
    requires AllHex(h) && |h| % 2 == 0
    ensures |bytes| == |h| / 2
  {
    if h == [] then []
    else HexPairs(h[..|h| - 2]) + [HexDigitValue(h[|h| - 2]) * 16 + HexDigitValue(h[|h| - 1])]
  }

  /** The number a byte string denotes, big-endian. */
  function BytesValue(bytes: seq<Byte>): nat {
    if bytes == [] then 0 else BytesValue(bytes[..|bytes| - 1]) * 256 + bytes[|bytes| - 1]
  }

  lemma {:induction false} BytesValueOfHexPairs(h: string)
    requires AllHex(h) && |h| % 2 == 0
    ensures BytesValue(HexPairs(h)) == HexValue(h)
    decreases |h|
  {
    if h != [] {
      var bs := HexPairs(h);
      var front := h[..|h| - 2];
      assert bs[..|bs| - 1] == HexPairs(front);
      assert h[..|h| - 1][..|h| - 2] == front;
      BytesValueOfHexPairs(front);
      var d0 := HexDigitValue(h[|h| - 2]);
      var d1 := HexDigitValue(h[|h| - 1]);
      calc {
        HexValue(h);
        HexValue(h[..|h| - 1]) * 16 + d1;
        (HexValue(front) * 16 + d0) * 16 + d1;
        HexValue(front) * 256 + (d0 * 16 + d1);
      }
    }
  }

  /** `b.toString(16).padStart(2, "0")`. */
  function ByteHex(b: Byte): (h: string)
    ensures |h| == 2 && AllHex(h)
  {
    var t := ToHex(b);
    assert b >= 16 ==> ToHex(b / 16) == [HexChar(b / 16)];
    if |t| < 2 then "0" + t else t
  }

  /** The two digits of a byte are its high and low nibble. */
  lemma {:induction false} ByteHexNibbles(b: Byte)
    ensures ByteHex(b) == [HexChar(b / 16), HexChar(b % 16)]
  {
    if b >= 16 {
      assert ToHex(b / 16) == [HexChar(b / 16)];
    }
  }

  /** `Array.from(buf).map(...).join("")`. */
  function BytesHex(bytes: seq<Byte>): (h: string)
    ensures AllHex(h) && |h| == 2 * |bytes|
  {
    if bytes == [] then [] else BytesHex(bytes[..|bytes| - 1]) + ByteHex(bytes[|bytes| - 1])
  }

  /** Appending a byte's two digits multiplies the value by 256 and adds the byte. */
  lemma {:induction false} HexValueAppendByte(h: string, b: Byte)
    requires AllHex(h)
    ensures AllHex(h + ByteHex(b)) && HexValue(h + ByteHex(b)) == HexValue(h) * 256 + b
  {
    var g := h + ByteHex(b);
    ByteHexNibbles(b);
    HexDigitValueOfChar(b / 16);
    HexDigitValueOfChar(b % 16);
    assert g[..|g| - 1] == h + [HexChar(b / 16)];
    assert g[..|g| - 1][..|g| - 2] == h;
    calc {
      HexValue(g);
      HexValue(g[..|g| - 1]) * 16 + b % 16;
      (HexValue(h) * 16 + b / 16) * 16 + b % 16;
      HexValue(h) * 256 + (b / 16 * 16 + b % 16);
    }
  }

  lemma {:induction false} HexValueOfBytesHex(bytes: seq<Byte>)
    ensures HexValue(BytesHex(bytes)) == BytesValue(bytes)
    decreases |bytes|
  {
    if bytes != [] {
      var front := bytes[..|bytes| - 1];
      HexValueOfBytesHex(front);
      HexValueAppendByte(BytesHex(front), bytes[|bytes| - 1]);
    }
  }

  // ---- base64 ----

  /** The standard base64 alphabet. */
  function Base64Char(s: Sextet): (c: char)
    ensures c != '='
  {
    if s < 26 then ('A' as int + s) as char
    else if s < 52 then ('a' as int + s - 26) as char
    else if s < 62 then ('0' as int + s - 52) as char
    else if s == 62 then '+'
    else '/'
  }

  /** What Node's decoder reads a character as: the standard and the URL-safe alphabet; anything else is not a digit. */
  function SextetOf(c: char): Option<Sextet> {
    if 'A' <= c <= 'Z' then Some(c as int - 'A' as int)
    else if 'a' <= c <= 'z' then Some(c as int - 'a' as int + 26)
    else if '0' <= c <= '9' then Some(c as int - '0' as int + 52)
    else if c == '+' || c == '-' then Some(62)
    else if c == '/' || c == '_' then Some(63)
    else None
  }

  lemma {:induction false} SextetOfChar(s: Sextet)
    ensures SextetOf(Base64Char(s)) == Some(s)
  {
  }

  /** The four digits of a group of three bytes, most significant first. */
  function Digit0(b0: Byte): Sextet { b0 / 4 }
  function Digit1(b0: Byte, b1: Byte): Sextet { b0 % 4 * 16 + b1 / 16 }
  function Digit2(b1: Byte, b2: Byte): Sextet { b1 % 16 * 4 + b2 / 64 }
  function Digit3(b2: Byte): Sextet { b2 % 64 }

  /** The three bytes of a group of four digits. */
  function Byte0(d0: Sextet, d1: Sextet): Byte { d0 * 4 + d1 / 16 }
  function Byte1(d1: Sextet, d2: Sextet): Byte { d1 % 16 * 16 + d2 / 4 }
  function Byte2(d2: Sextet, d3: Sextet): Byte { d2 % 4 * 64 + d3 }

  /** Reading a group's digits back gives its bytes, whatever byte follows a partial group. */
  lemma {:induction false} GroupBytes(b0: Byte, b1: Byte, b2: Byte)
    ensures Byte0(Digit0(b0), Digit1(b0, b1)) == b0
    ensures Byte1(Digit1(b0, b1), Digit2(b1, b2)) == b1
    ensures Byte2(Digit2(b1, b2), Digit3(b2)) == b2
  {
  }

  /** `Buffer.from(bytes).toString("base64")`: three bytes to four characters, `=` padding at the end. */
  function Encode(bytes: seq<Byte>): (s: string)
    ensures |s| == 4 * ((|bytes| + 2) / 3)
  {
    if bytes == [] then ""
    else if |bytes| == 1 then
      [Base64Char(Digit0(bytes[0])), Base64Char(Digit1(bytes[0], 0)), '=', '=']
    else if |bytes| == 2 then
      [Base64Char(Digit0(bytes[0])), Base64Char(Digit1(bytes[0], bytes[1])), Base64Char(Digit2(bytes[1], 0)), '=']
    else
      [Base64Char(Digit0(bytes[0])), Base64Char(Digit1(bytes[0], bytes[1])),
       Base64Char(Digit2(bytes[1], bytes[2])), Base64Char(Digit3(bytes[2]))]
      + Encode(bytes[3..])
  }

  /** The digits Node's decoder reads: characters outside the alphabets are skipped and the first `=` ends the input. */
  function Sextets(s: string): (digits: seq<Sextet>)
    ensures |digits| <= |s|
  {
    if s == [] || s[0] == '=' then []
    else match SextetOf(s[0])
      case None => Sextets(s[1..])
      case Some(d) => [d] + Sextets(s[1..])
  }

  /** Four digits give three bytes; a trailing two give one byte, three give two, one gives nothing. */
  function SextetBytes(d: seq<Sextet>): (bytes: seq<Byte>)
    ensures |bytes| == |d| / 4 * 3 + (if |d| % 4 == 0 then 0 else |d| % 4 - 1)
  {
    if |d| < 2 then []
    else if |d| == 2 then [Byte0(d[0], d[1])]
    else if |d| == 3 then [Byte0(d[0], d[1]), Byte1(d[1], d[2])]
    else [Byte0(d[0], d[1]), Byte1(d[1], d[2]), Byte2(d[2], d[3])] + SextetBytes(d[4..])
  }

  /** `Buffer.from(b64, "base64")`. */
  function Decode(s: string): (bytes: seq<Byte>)
    ensures 4 * |bytes| <= 3 * |s|
  {
    SextetBytes(Sextets(s))
  }

  /** An alphabet character in front is read as its digit. */
  lemma {:induction false} SextetsCons(d: Sextet, rest: string)
    ensures Sextets([Base64Char(d)] + rest) == [d] + Sextets(rest)
  {
    var s := [Base64Char(d)] + rest;
    SextetOfChar(d);
    assert s[1..] == rest;
  }

  /** Padding ends the input. */
  lemma {:induction false} SextetsPadding(rest: string)
    ensures Sextets(['='] + rest) == []
  {
  }

  /** Two digits and two padding characters are read as the two digits. */
  lemma {:induction false} SextetsOfPair(d0: Sextet, d1: Sextet)
    ensures Sextets([Base64Char(d0), Base64Char(d1), '=', '=']) == [d0, d1]
  {
    var s := [Base64Char(d0), Base64Char(d1), '=', '='];
    SextetsCons(d0, s[1..]);
    SextetsCons(d1, s[2..]);
    SextetsPadding(s[3..]);
    assert s == [Base64Char(d0)] + s[1..] && s[1..] == [Base64Char(d1)] + s[2..] && s[2..] == ['='] + s[3..];
  }

  /** Three digits and one padding character are read as the three digits. */
  lemma {:induction false} SextetsOfTriple(d0: Sextet, d1: Sextet, d2: Sextet)
    ensures Sextets([Base64Char(d0), Base64Char(d1), Base64Char(d2), '=']) == [d0, d1, d2]
  {
    var s := [Base64Char(d0), Base64Char(d1), Base64Char(d2), '='];
    SextetsCons(d0, s[1..]);
    SextetsCons(d1, s[2..]);
    SextetsCons(d2, s[3..]);
    SextetsPadding(s[4..]);
    assert s == [Base64Char(d0)] + s[1..] && s[1..] == [Base64Char(d1)] + s[2..];
    assert s[2..] == [Base64Char(d2)] + s[3..] && s[3..] == ['='] + s[4..];
  }

  /** Four digits in front are read as the four digits, followed by whatever the rest reads as. */
  lemma {:induction false} SextetsOfQuad(d0: Sextet, d1: Sextet, d2: Sextet, d3: Sextet, rest: string)
    ensures Sextets([Base64Char(d0), Base64Char(d1), Base64Char(d2), Base64Char(d3)] + rest) == [d0, d1, d2, d3] + Sextets(rest)
  {
    var t3 := [Base64Char(d3)] + rest;
    var t2 := [Base64Char(d2)] + t3;
    var t1 := [Base64Char(d1)] + t2;
    calc {
      Sextets([Base64Char(d0), Base64Char(d1), Base64Char(d2), Base64Char(d3)] + rest);
      { assert [Base64Char(d0), Base64Char(d1), Base64Char(d2), Base64Char(d3)] + rest == [Base64Char(d0)] + t1; }
      Sextets([Base64Char(d0)] + t1);
      { SextetsCons(d0, t1); }
      [d0] + Sextets(t1);
      { SextetsCons(d1, t2); }
      [d0] + ([d1] + Sextets(t2));
      { SextetsCons(d2, t3); }
      [d0] + ([d1] + ([d2] + Sextets(t3)));
      { SextetsCons(d3, rest); }
      [d0] + ([d1] + ([d2] + ([d3] + Sextets(rest))));
      [d0, d1, d2, d3] + Sextets(rest);
    }
  }

  /** One byte is written as two digits and two padding characters and read back. */
  lemma {:induction false} DecodeEncodeOne(b0: Byte)
    ensures Decode(Encode([b0])) == [b0]
  {
    var d0, d1 := Digit0(b0), Digit1(b0, 0);
    calc {
      Decode(Encode([b0]));
      SextetBytes(Sextets([Base64Char(d0), Base64Char(d1), '=', '=']));
      { SextetsOfPair(d0, d1); }
      SextetBytes([d0, d1]);
      [Byte0(d0, d1)];
      { GroupBytes(b0, 0, 0); }
      [b0];
    }
  }

  /** Two bytes are written as three digits and one padding character and read back. */
  lemma {:induction false} DecodeEncodeTwo(b0: Byte, b1: Byte)
    ensures Decode(Encode([b0, b1])) == [b0, b1]
  {
    SextetsOfTriple(Digit0(b0), Digit1(b0, b1), Digit2(b1, 0));
    GroupBytes(b0, b1, 0);
  }

  /** A full group in front is read back as its three bytes, followed by whatever the rest reads as. */
  lemma {:induction false} DecodeEncodeGroup(bytes: seq<Byte>)
    requires |bytes| >= 3
    ensures Decode(Encode(bytes)) == bytes[..3] + Decode(Encode(bytes[3..]))
  {
    var d0, d1 := Digit0(bytes[0]), Digit1(bytes[0], bytes[1]);
    var d2, d3 := Digit2(bytes[1], bytes[2]), Digit3(bytes[2]);
    var rest := Encode(bytes[3..]);
    SextetsOfQuad(d0, d1, d2, d3, rest);
    var ds := [d0, d1, d2, d3] + Sextets(rest);
    assert ds[4..] == Sextets(rest);
    GroupBytes(bytes[0], bytes[1], bytes[2]);
    assert bytes[..3] == [bytes[0], bytes[1], bytes[2]];
  }

  /** Decoding what `Encode` wrote gives the bytes back. */
  lemma {:induction false} DecodeEncode(bytes: seq<Byte>)
    ensures Decode(Encode(bytes)) == bytes
    decreases |bytes|
  {
    if |bytes| == 1 {
      assert bytes == [bytes[0]];
      DecodeEncodeOne(bytes[0]);
    } else if |bytes| == 2 {
      assert bytes == [bytes[0], bytes[1]];
      DecodeEncodeTwo(bytes[0], bytes[1]);
    } else if |bytes| >= 3 {
      DecodeEncodeGroup(bytes);
      DecodeEncode(bytes[3..]);
      assert bytes == bytes[..3] + bytes[3..];
    }
  }

  // ---- the two directions ----

  /** `bigintToBase64(bn)` (the server's and the client's copy agree: `btoa` over char codes below 256 is the same encoding). */
  function BigintToBase64(x: nat): (s: string)
    ensures |s| >= 4 && |s| % 4 == 0
  {
    var bytes := HexPairs(PadEven(ToHex(x)));
    FourPerGroup(|bytes|);
    Encode(bytes)
  }

  /** Base64 of at least one byte has at least one group of four characters. */
  lemma FourPerGroup(n: nat)
    requires n >= 1
    ensures 4 * ((n + 2) / 3) >= 4 && 4 * ((n + 2) / 3) % 4 == 0
  {
  }

  /** `base64ToBigint(b64)`: `BigInt("0x")` throws when no byte was decoded. */
  function Base64ToBigint(s: string): (r: Option<nat>)
    ensures r.None? <==> Decode(s) == []
  {
    var hex := BytesHex(Decode(s));
    if hex == "" then None else Some(HexValue(hex))
  }

  /** The value read back is the big-endian value of the decoded bytes. */
  lemma {:induction false} Base64ToBigintValue(s: string)
    requires Decode(s) != []
    ensures Base64ToBigint(s) == Some(BytesValue(Decode(s)))
  {
    HexValueOfBytesHex(Decode(s));
  }

  /** Every integer survives the trip through base64. */
  lemma {:induction false} Base64RoundTrip(x: nat)
    ensures Base64ToBigint(BigintToBase64(x)) == Some(x)
  {
    var hex := PadEven(ToHex(x));
    var bytes := HexPairs(hex);
    DecodeEncode(bytes);
    assert bytes != [];
    Base64ToBigintValue(BigintToBase64(x));
    BytesValueOfHexPairs(hex);
    HexValueOfToHex(x);
  }

  /** Distinct integers get distinct base64 text. */
  lemma {:induction false} BigintToBase64Injective(x: nat, y: nat)
    requires BigintToBase64(x) == BigintToBase64(y)
    ensures x == y
  {
    Base64RoundTrip(x);
    Base64RoundTrip(y);
  }
}
