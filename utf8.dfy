/** UTF-8 as defined in section 3 of RFC 3629, over Dafny's `char`, which is a
    Unicode scalar value (U+0000..U+D7FF and U+E000..U+10FFFF).

    `Encode` is what `String.toByteArray(Charsets.UTF_8)` computes for such a
    string. `Decode` stands for `ByteArray.toString(Charsets.UTF_8)`: it never
    fails, and it follows the maximal-subpart practice of the Unicode
    standard, turning every maximal ill-formed subpart of the input into one
    U+FFFD REPLACEMENT CHARACTER. */
module Utf8 {

  type Byte = b: int | 0 <= b < 256
  type Bytes = seq<Byte>

  const Replacement: char := '�'

  /** A continuation byte, 10xxxxxx. */
  predicate IsContinuation(b: Byte) {
    0x80 <= b <= 0xBF
  }

  /** The range the second byte of a sequence may take, by lead byte
      (the table of well-formed sequences in section 4 of RFC 3629). */
  predicate SecondByteOk(lead: Byte, b: Byte) {
    if lead == 0xE0 then 0xA0 <= b <= 0xBF
    else if lead == 0xED then 0x80 <= b <= 0x9F
    else if lead == 0xF0 then 0x90 <= b <= 0xBF
    else if lead == 0xF4 then 0x80 <= b <= 0x8F
    else IsContinuation(b)
  }

  /** The bytes of one scalar value. */
  function EncodeChar(c: char): (r: Bytes)
    ensures 1 <= |r| <= 4
    ensures |r| == 1 <==> c as int < 0x80
    ensures forall k :: 1 <= k < |r| ==> IsContinuation(r[k])
  {
    var cp := c as int;
    if cp < 0x80 then [cp]
    else if cp < 0x800 then [0xC0 + cp / 64, 0x80 + cp % 64]
    else if cp < 0x1_0000 then [0xE0 + cp / 4096, 0x80 + cp / 64 % 64, 0x80 + cp % 64]
    else [0xF0 + cp / 262144, 0x80 + cp / 4096 % 64, 0x80 + cp / 64 % 64, 0x80 + cp % 64]
  }

  function Encode(s: string): (r: Bytes)
    ensures |s| <= |r| <= 4 * |s|
    ensures s == [] <==> r == []
  {
    if s == [] then [] else EncodeChar(s[0]) + Encode(s[1..])
  }

  /** The first character of a non-empty byte string and the number of bytes
      it takes: a well-formed sequence gives its scalar value, an ill-formed
      one gives U+FFFD for its maximal subpart (at least the lead byte). */
  function DecodeFirst(b: Bytes): (r: (char, nat))
    requires b != []
    ensures 1 <= r.1 <= |b| && r.1 <= 4
  {
    var b0 := b[0] as int;
    if b0 < 0x80 then
      (b0 as char, 1)
    else if 0xC2 <= b0 <= 0xDF then
      if |b| >= 2 && IsContinuation(b[1]) then
        (Scalar2(b0, b[1]), 2)
      else (Replacement, 1)
    else if 0xE0 <= b0 <= 0xEF then
      if |b| >= 2 && SecondByteOk(b0, b[1]) then
        if |b| >= 3 && IsContinuation(b[2]) then
          (Scalar3(b0, b[1], b[2]), 3)
        else (Replacement, 2)
      else (Replacement, 1)
    else if 0xF0 <= b0 <= 0xF4 then
      if |b| >= 2 && SecondByteOk(b0, b[1]) then
        if |b| >= 3 && IsContinuation(b[2]) then
          if |b| >= 4 && IsContinuation(b[3]) then
            (Scalar4(b0, b[1], b[2], b[3]), 4)
          else (Replacement, 3)
        else (Replacement, 2)
      else (Replacement, 1)
    else
      (Replacement, 1)
  }

  /** The scalar value of a well-formed two-byte sequence. */
  function Scalar2(b0: Byte, b1: Byte): (c: char)
    requires 0xC2 <= b0 <= 0xDF && IsContinuation(b1)
    ensures 0x80 <= c as int < 0x800
  {
    ((b0 as int - 0xC0) * 64 + (b1 as int - 0x80)) as char
  }

  /** The scalar value of a well-formed three-byte sequence. */
  function Scalar3(b0: Byte, b1: Byte, b2: Byte): (c: char)
    requires 0xE0 <= b0 <= 0xEF && SecondByteOk(b0, b1) && IsContinuation(b2)
    ensures 0x800 <= c as int < 0x1_0000
  {
    ((b0 as int - 0xE0) * 4096 + (b1 as int - 0x80) * 64 + (b2 as int - 0x80)) as char
  }

  /** The scalar value of a well-formed four-byte sequence. */
  function Scalar4(b0: Byte, b1: Byte, b2: Byte, b3: Byte): (c: char)
    requires 0xF0 <= b0 <= 0xF4 && SecondByteOk(b0, b1) && IsContinuation(b2) && IsContinuation(b3)
    ensures 0x1_0000 <= c as int < 0x11_0000
  {
    ((b0 as int - 0xF0) * 262144 + (b1 as int - 0x80) * 4096 + (b2 as int - 0x80) * 64 + (b3 as int - 0x80)) as char
  }

  function Decode(b: Bytes): (r: string)
    ensures |r| <= |b|
    ensures b == [] <==> r == []
    decreases |b|
  {
    if b == [] then []
    else
      var (c, n) := DecodeFirst(b);
      [c] + Decode(b[n..])
  }

  /** The decoder reads back exactly the bytes of one encoded character. */
  lemma DecodeFirstEncodeChar(c: char, rest: Bytes)
    ensures DecodeFirst(EncodeChar(c) + rest) == (c, |EncodeChar(c)|)
  {
    var cp := c as int;
    if cp < 0x80 {
    } else if cp < 0x800 {
      TwoByteRoundTrip(c);
    } else if cp < 0x1_0000 {
      ThreeByteRoundTrip(c);
    } else {
      FourByteRoundTrip(c);
    }
  }

  lemma TwoByteRoundTrip(c: char)
    requires 0x80 <= c as int < 0x800
    ensures var e := EncodeChar(c); |e| == 2 && 0xC2 <= e[0] <= 0xDF && Scalar2(e[0], e[1]) == c
  {
    var cp := c as int;
    assert cp / 64 * 64 + cp % 64 == cp;
  }

  lemma ThreeByteRoundTrip(c: char)
    requires 0x800 <= c as int < 0x1_0000
    ensures var e := EncodeChar(c);
      |e| == 3 && 0xE0 <= e[0] <= 0xEF && SecondByteOk(e[0], e[1]) && Scalar3(e[0], e[1], e[2]) == c
  {
    var cp := c as int;
    var hi, mid, lo := cp / 4096, cp / 64 % 64, cp % 64;
    assert cp / 64 == hi * 64 + mid;
    assert hi * 4096 + mid * 64 + lo == cp;
    assert hi == 0 ==> mid >= 0x20;
    assert hi == 0xD ==> mid <= 0x1F;
  }

  lemma FourByteRoundTrip(c: char)
    requires 0x1_0000 <= c as int
    ensures var e := EncodeChar(c);
      |e| == 4 && 0xF0 <= e[0] <= 0xF4 && SecondByteOk(e[0], e[1]) && Scalar4(e[0], e[1], e[2], e[3]) == c
  {
    var cp := c as int;
    var top, hi, mid, lo := cp / 262144, cp / 4096 % 64, cp / 64 % 64, cp % 64;
    assert cp / 4096 == top * 64 + hi;
    assert cp / 64 == (top * 64 + hi) * 64 + mid;
    assert top * 262144 + hi * 4096 + mid * 64 + lo == cp;
    assert top == 0 ==> hi >= 0x10;
    assert top == 4 ==> hi < 0x10;
  }

  /** Decoding undoes encoding, for every string of scalar values. */
  lemma {:induction false} DecodeEncode(s: string)
    ensures Decode(Encode(s)) == s
  {
    if s != [] {
      var e := EncodeChar(s[0]);
      var tail := Encode(s[1..]);
      DecodeFirstEncodeChar(s[0], tail);
      assert (e + tail)[|e|..] == tail;
      DecodeEncode(s[1..]);
    }
  }

  /** Encoding is one-to-one: two strings with the same bytes are equal. */
  lemma EncodeInjective(s: string, t: string)
    requires Encode(s) == Encode(t)
    ensures s == t
  {
    DecodeEncode(s);
    DecodeEncode(t);
  }
}
