/** TextEncoder.encode: the UTF-8 bytes (RFC 3629) of a string, which is
    how generateSignature turns the secret and the signing input into key
    and message bytes. */
module Utf8 {
  import opened Wrappers
  import opened Binary

  /** The bytes of one code point: one below U+0080, two below U+0800,
      three below U+10000 and four above, six payload bits per trailing
      byte. */
  function EncodeChar(c: char): (b: Bytes)
    ensures 1 <= |b| <= 4
    ensures |b| == 1 <==> c as int < 0x80
    ensures |b| == 1 ==> b[0] == c as int
    ensures 1 < |b| ==> 0xC0 <= b[0] && forall i :: 1 <= i < |b| ==> 0x80 <= b[i] < 0xC0
  {
    var v := c as int;
    var r0, q1 := v % 64, v / 64;
    var r1, q2 := q1 % 64, q1 / 64;
    var r2, q3 := q2 % 64, q2 / 64;
    if v < 0x80 then [v]
    else if v < 0x800 then [0xC0 + q1, 0x80 + r0]
    else if v < 0x1_0000 then [0xE0 + q2, 0x80 + r1, 0x80 + r0]
    else [0xF0 + q3, 0x80 + r2, 0x80 + r1, 0x80 + r0]
  }

  function Encode(s: string): (b: Bytes)
    ensures |s| <= |b| <= 4 * |s|
  {
    if s == [] then [] else EncodeChar(s[0]) + Encode(s[1..])
  }

  /** How many bytes a sequence with this lead byte takes, 0 for a byte
      that cannot lead one. */
  function SequenceLength(lead: Byte): (n: nat)
    ensures n <= 4
  {
    if lead < 0x80 then 1
    else if lead < 0xC0 then 0
    else if lead < 0xE0 then 2
    else if lead < 0xF0 then 3
    else if lead < 0xF8 then 4
    else 0
  }

  predicate IsScalar(v: int)
  {
    0 <= v < 0xD800 || 0xE000 <= v < 0x11_0000
  }

  /** The code point a lead byte and its trailing bytes carry. */
  function Combine(b: Bytes): int
    requires 1 <= |b| <= 4
  {
    var b0 := b[0] as int;
    if |b| == 1 then b0
    else
      var t1 := b[1] as int - 0x80;
      if |b| == 2 then (b0 - 0xC0) * 64 + t1
      else
        var t2 := b[2] as int - 0x80;
        if |b| == 3 then ((b0 - 0xE0) * 64 + t1) * 64 + t2
        else ((((b0 - 0xF0) * 64 + t1) * 64 + t2) * 64) + (b[3] as int - 0x80)
  }

  /** Reads the bytes back as code points; None for a malformed sequence. */
  function Decode(b: Bytes): (r: Option<string>)
    decreases |b|
  {
    if b == [] then Some([])
    else
      var n := SequenceLength(b[0]);
      if n == 0 || |b| < n then None
      else if exists i :: 1 <= i < n && !(0x80 <= b[i] < 0xC0) then None
      else
        var v := Combine(b[..n]);
        if !IsScalar(v) then None
        else match Decode(b[n..])
          case None => None
          case Some(rest) => Some([v as char] + rest)
  }

  /** The lead byte of a character's encoding announces its length, and
      its bytes combine back to the character. */
  lemma CharRoundTrip(c: char)
    ensures SequenceLength(EncodeChar(c)[0]) == |EncodeChar(c)|
    ensures Combine(EncodeChar(c)) == c as int
  {
    var v := c as int;
    var r0, q1 := v % 64, v / 64;
    var r1, q2 := q1 % 64, q1 / 64;
    var r2, q3 := q2 % 64, q2 / 64;
    assert v == q1 * 64 + r0 && q1 == q2 * 64 + r1 && q2 == q3 * 64 + r2;
  }

  lemma DecodeCons(c: char, rest: Bytes)
    ensures Decode(EncodeChar(c) + rest) ==
      match Decode(rest)
      case None => None
      case Some(t) => Some([c] + t)
  {
    var e := EncodeChar(c);
    var b := e + rest;
    CharRoundTrip(c);
    assert b[..|e|] == e && b[|e|..] == rest;
    forall i | 1 <= i < |e| ensures 0x80 <= b[i] < 0xC0 {
      assert b[i] == e[i];
    }
  }

  /** Decoding inverts encoding. */
  lemma {:induction false} RoundTrip(s: string)
    ensures Decode(Encode(s)) == Some(s)
  {
    if s != [] {
      RoundTrip(s[1..]);
      DecodeCons(s[0], Encode(s[1..]));
      assert [s[0]] + s[1..] == s;
    }
  }

  /** Different strings have different encodings, so different secrets are
      different keys. */
  lemma Injective(s: string, t: string)
    requires Encode(s) == Encode(t)
    ensures s == t
  {
    RoundTrip(s);
    RoundTrip(t);
  }

  /** ASCII text encodes byte for byte. */
  lemma {:induction false} EncodeAscii(s: string)
    requires forall i :: 0 <= i < |s| ==> s[i] as int < 0x80
    ensures IsBinary(s) && Encode(s) == ToBytes(s)
  {
    if s != [] {
      EncodeAscii(s[1..]);
      assert ToBytes(s) == [s[0] as int] + ToBytes(s[1..]);
    }
  }

  /** The empty string is the only one with no bytes. */
  lemma EncodeEmpty(s: string)
    ensures Encode(s) == [] <==> s == []
  {
  }
}
