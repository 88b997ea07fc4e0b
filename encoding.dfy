/** The text codecs of src/utils/encoding.ts: Base64, its URL-safe variant
    without padding, Base32 (section 6 of RFC 4648) built as a bit string,
    and lower-case hexadecimal.

    Inputs and decoded outputs are JavaScript binary strings, modelled as
    byte sequences. The decoders never throw: where the source returns an
    in-band sentinel string such as 'Invalid Hex string' in place of the
    decoded text, the model returns Failure carrying that same sentinel. */
module Encoding {
  import opened Wrappers
  import opened Binary
  import opened Strings
  import Base64
  import opened Js

  const InvalidBase64: string := "Invalid Base64 string"
  const InvalidBase64Url: string := "Invalid Base64URL string"
  const InvalidBase32: string := "Invalid Base32 string"
  const InvalidHex: string := "Invalid Hex string"

  // ---------------------------------------------------------------- Base64

  /** encodeBase64: btoa. */
  function EncodeBase64(input: Bytes): (r: string)
    ensures |r| == 4 * ((|input| + 2) / 3)
  {
    Base64.Encode(input)
  }

  /** decodeBase64: atob, its exception caught and turned into the sentinel. */
  function DecodeBase64(input: string): (r: Result<Bytes, string>)
    ensures r.Failure? <==> Base64.Decode(input).None?
    ensures r.Failure? ==> r.error == InvalidBase64
  {
    match Base64.Decode(input)
    case Some(b) => Success(b)
    case None => Failure(InvalidBase64)
  }

  lemma Base64RoundTrip(b: Bytes)
    ensures DecodeBase64(EncodeBase64(b)) == Success(b)
  {
    Base64.DecodeEncode(b);
  }

  /** encodeBase64Url: btoa, then '+' to '-', '/' to '_', '=' removed. */
  function EncodeBase64Url(input: Bytes): (r: string)
    ensures '+' !in r && '/' !in r && '=' !in r && '.' !in r
  {
    Base64.ToUrlAlphabet(input);
    Base64.ToUrl(Base64.Encode(input))
  }

  /** What decodeBase64Url computes: the substitutions undone, '=' appended
      up to a multiple of four, then atob. */
  function Base64UrlDecoding(input: string): Result<Bytes, string>
  {
    match Base64.Decode(Base64.PadTo4(Base64.FromUrl(input)))
    case Some(b) => Success(b)
    case None => Failure(InvalidBase64Url)
  }

  /** decodeBase64Url, with its padding loop. */
  method DecodeBase64Url(input: string) returns (r: Result<Bytes, string>)
    ensures r == Base64UrlDecoding(input)
  {
    var base64 := Replace(Replace(input, '-', '+'), '_', '/');
    ghost var unpadded := base64;
    while |base64| % 4 != 0
      invariant |unpadded| <= |base64| <= |Base64.PadTo4(unpadded)|
      invariant base64 == Base64.PadTo4(unpadded)[..|base64|]
      decreases |Base64.PadTo4(unpadded)| - |base64|
    {
      base64 := base64 + "=";
    }
    assert base64 == Base64.PadTo4(unpadded);
    match Base64.Decode(base64)
    case Some(b) => r := Success(b);
    case None => r := Failure(InvalidBase64Url);
  }

  /** decodeBase64Url inverts encodeBase64Url on every binary string. */
  lemma Base64UrlRoundTrip(b: Bytes)
    ensures Base64UrlDecoding(EncodeBase64Url(b)) == Success(b)
  {
    Base64.UrlRoundTrip(b);
  }

  // ---------------------------------------------------------------- Base32

  const Base32Alphabet: string := "ABCDEFGHIJKLMNOPQRSTUVWXYZ234567"

  /** The 5-bit value of a Base32 character, or -1. */
  function Base32Value(c: char): (v: int)
    ensures -1 <= v < 32
  {
    if 'A' <= c <= 'Z' then c as int - 'A' as int
    else if '2' <= c <= '7' then c as int - '2' as int + 26
    else -1
  }

  lemma Base32Table()
    ensures forall v :: 0 <= v < 32 ==> Base32Value(Base32Alphabet[v]) == v
  {
    assert Base32Alphabet[..26] == Base64.Upper && Base32Alphabet[26..] == "234567";
    Base64.UpperTable();
    forall v | 0 <= v < 32 ensures Base32Value(Base32Alphabet[v]) == v {
      if v < 26 { assert Base32Alphabet[v] == Base64.Upper[v]; }
      else { assert Base32Alphabet[v] == "234567"[v - 26]; }
    }
  }

  /** base32Alphabet.indexOf(c) is the character's 5-bit value. */
  lemma Base32IndexOf(c: char)
    ensures IndexOf(Base32Alphabet, c) == Base32Value(c)
  {
    Base32Table();
    var i := IndexOf(Base32Alphabet, c);
    if Base32Value(c) >= 0 {
      var v := Base32Value(c);
      Base32ValueInjective(Base32Alphabet[v], c);
      assert Base32Alphabet[v] == c;
    }
    if i >= 0 {
      assert Base32Value(Base32Alphabet[i]) == i;
    }
  }

  lemma Base32ValueInjective(a: char, b: char)
    requires Base32Value(a) == Base32Value(b) >= 0
    ensures a == b
  {
  }

  /** The bit string of encodeBase32's first loop: eight digits per byte. */
  function ByteBits(input: Bytes): (bits: seq<Bit>)
    ensures |bits| == 8 * |input|
  {
    if input == [] then [] else ToBits(input[0], 8) + ByteBits(input[1..])
  }

  lemma {:induction false} ByteBitsAppend(input: Bytes, x: Byte)
    ensures ByteBits(input + [x]) == ByteBits(input) + ToBits(x, 8)
  {
    if input != [] {
      assert (input + [x])[1..] == input[1..] + [x];
      ByteBitsAppend(input[1..], x);
    } else {
      assert input + [x] == [x];
    }
  }

  function Min(a: int, b: int): int
  {
    if a <= b then a else b
  }

  /** chunk.padEnd(5, '0'). */
  function PadEnd5(chunk: seq<Bit>): (p: seq<Bit>)
    requires |chunk| <= 5
    ensures |p| == 5 && p[..|chunk|] == chunk
    ensures forall i :: |chunk| <= i < 5 ==> p[i] == 0
  {
    chunk + Zeros(5 - |chunk|)
  }

  /** The characters of encodeBase32's second loop: each run of five bits,
      the last one filled with zeros on the right, read as an index into the
      alphabet. */
  function Chunks5(bits: seq<Bit>): (r: string)
    ensures |r| == (|bits| + 4) / 5
    decreases |bits|
  {
    if bits == [] then []
    else
      var n := Min(5, |bits|);
      assert Pow2(5) == 32;
      [Base32Alphabet[FromBits(PadEnd5(bits[..n]))]] + Chunks5(bits[n..])
  }

  /** The characters are all alphabet characters, so none is '='. */
  lemma {:induction false} Chunks5Alphabet(bits: seq<Bit>)
    ensures forall i :: 0 <= i < |Chunks5(bits)| ==> Base32Value(Chunks5(bits)[i]) >= 0
    decreases |bits|
  {
    Base32Table();
    if bits != [] {
      Chunks5Alphabet(bits[Min(5, |bits|)..]);
    }
  }

  /** The loop appending '=': s followed by the fewest '=' that make the
      length a multiple of eight. */
  function PadTo8(s: string): (r: string)
    ensures |r| % 8 == 0 && |s| <= |r| < |s| + 8 && r[..|s|] == s
    ensures forall i :: |s| <= i < |r| ==> r[i] == '='
  {
    s + Repeat('=', (8 - |s| % 8) % 8)
  }

  /** What encodeBase32 computes. */
  function Base32Encoding(input: Bytes): string
  {
    PadTo8(Chunks5(ByteBits(input)))
  }

  /** encodeBase32: the three loops of the source, one helper each. */
  method EncodeBase32(input: Bytes) returns (result: string)
    ensures result == Base32Encoding(input)
  {
    var bits := BitString(input);
    var chars := ChunkCharacters(bits);
    result := PadWithEquals(chars);
  }

  /** First loop: the eight binary digits of every byte, in order. */
  method BitString(input: Bytes) returns (bits: seq<Bit>)
    ensures bits == ByteBits(input)
  {
    bits := [];
    for i := 0 to |input|
      invariant bits == ByteBits(input[..i])
    {
      ByteBitsAppend(input[..i], input[i]);
      assert input[..i + 1] == input[..i] + [input[i]];
      bits := bits + ToBits(input[i], 8);
    }
    assert input[..|input|] == input;
  }

  /** Second loop: one alphabet character per five bits, `i += 5`. */
  method ChunkCharacters(bits: seq<Bit>) returns (result: string)
    ensures result == Chunks5(bits)
  {
    result := "";
    var i := 0;
    while i < |bits|
      invariant 0 <= i
      invariant result + Chunks5(bits[Min(i, |bits|)..]) == Chunks5(bits)
      decreases |bits| - i
    {
      var chunk := bits[i..Min(i + 5, |bits|)];
      var index := FromBits(PadEnd5(chunk));
      ChunkCharacterStep(bits, i, result);
      result := result + [Base32Alphabet[index]];
      i := i + 5;
    }
    assert bits[Min(i, |bits|)..] == [];
  }

  /** Third loop: '=' appended while the length is not a multiple of eight. */
  method PadWithEquals(chars: string) returns (result: string)
    ensures result == PadTo8(chars)
  {
    result := chars;
    while |result| % 8 != 0
      invariant |chars| <= |result| && result == chars + Repeat('=', |result| - |chars|)
      invariant |result| - |chars| <= (8 - |chars| % 8) % 8
      decreases (8 - |chars| % 8) % 8 - (|result| - |chars|)
    {
      PadCount(|chars|, |result| - |chars|);
      result := result + "=";
    }
    PadCount(|chars|, |result| - |chars|);
  }

  lemma Chunks5Step(bits: seq<Bit>, i: nat)
    requires i < |bits|
    ensures FromBits(PadEnd5(bits[i..Min(i + 5, |bits|)])) < 32
    ensures Chunks5(bits[i..]) ==
      [Base32Alphabet[FromBits(PadEnd5(bits[i..Min(i + 5, |bits|)]))]] + Chunks5(bits[Min(i + 5, |bits|)..])
  {
    assert Pow2(5) == 32;
    assert bits[i..][..Min(5, |bits| - i)] == bits[i..Min(i + 5, |bits|)];
    assert bits[i..][Min(5, |bits| - i)..] == bits[Min(i + 5, |bits|)..];
  }

  /** One turn of the second loop keeps its invariant. */
  lemma ChunkCharacterStep(bits: seq<Bit>, i: nat, result: string)
    requires i < |bits|
    requires result + Chunks5(bits[i..]) == Chunks5(bits)
    ensures FromBits(PadEnd5(bits[i..Min(i + 5, |bits|)])) < 32
    ensures (result + [Base32Alphabet[FromBits(PadEnd5(bits[i..Min(i + 5, |bits|)]))]])
      + Chunks5(bits[Min(i + 5, |bits|)..]) == Chunks5(bits)
  {
    assert i < Min(i + 5, |bits|) <= |bits| && Min(i + 5, |bits|) <= i + 5;
    Chunks5Step(bits, i);
    var rest := Chunks5(bits[Min(i + 5, |bits|)..]);
    var c := [Base32Alphabet[FromBits(PadEnd5(bits[i..Min(i + 5, |bits|)]))]];
    Associative(result, c, rest);
  }


  /** Fewer '=' than PadTo8 appends leave the length off a multiple of eight. */
  lemma PadCount(n: nat, k: nat)
    requires k <= (8 - n % 8) % 8
    ensures (n + k) % 8 == 0 <==> k == (8 - n % 8) % 8
  {
  }

  /** The encoded length is always a multiple of eight. */
  lemma Base32EncodingLength(input: Bytes)
    ensures |Base32Encoding(input)| % 8 == 0
  {
  }

  /** encodeBase32 of n bytes is ceil(8n/5) alphabet characters followed by
      fewer than eight '=' and nothing else. */
  lemma Base32EncodingShape(input: Bytes)
    ensures var r, k := Base32Encoding(input), (8 * |input| + 4) / 5;
      k <= |r| < k + 8
      && (forall i :: 0 <= i < k ==> Base32Value(r[i]) >= 0)
      && (forall i :: k <= i < |r| ==> r[i] == '=')
  {
    var chars := Chunks5(ByteBits(input));
    Chunks5Alphabet(ByteBits(input));
    var r := Base32Encoding(input);
    assert r[..|chars|] == chars;
    forall i | 0 <= i < |chars| ensures Base32Value(r[i]) >= 0 {
      assert r[i] == chars[i];
    }
  }

  /** String.prototype.toUpperCase on one character, exact for every
      character whose full upper-case form lies inside A-Z: the ASCII letters,
      U+00DF (to "SS"), U+0131 (to "I"), U+017F (to "S") and the Latin
      ligatures U+FB00-U+FB06. Every other character is kept: either it is
      its own upper case, or its upper case holds a character outside the
      Base32 alphabet, so that the decoder rejects it either way. */
  function UpperChar(c: char): string
  {
    if 'a' <= c <= 'z' then [(c as int - 32) as char]
    else if c as int == 0x00DF then "SS"
    else if c as int == 0x0131 then "I"
    else if c as int == 0x017F then "S"
    else if c as int == 0xFB00 then "FF"
    else if c as int == 0xFB01 then "FI"
    else if c as int == 0xFB02 then "FL"
    else if c as int == 0xFB03 then "FFI"
    else if c as int == 0xFB04 then "FFL"
    else if c as int == 0xFB05 || c as int == 0xFB06 then "ST"
    else [c]
  }

  function UpperCase(s: string): string
  {
    if s == [] then [] else UpperChar(s[0]) + UpperCase(s[1..])
  }

  /** cleanInput: every '=' removed, then upper-cased. */
  function Clean(input: string): string
  {
    UpperCase(RemoveAll(input, '='))
  }

  predicate AllBase32(s: string)
  {
    forall i :: 0 <= i < |s| ==> Base32Value(s[i]) >= 0
  }

  /** The bit string of decodeBase32's first loop: five digits per character. */
  function CharBits(s: string): (bits: seq<Bit>)
    requires AllBase32(s)
    ensures |bits| == 5 * |s|
  {
    if s == [] then [] else ToBits(Base32Value(s[0]), 5) + CharBits(s[1..])
  }

  lemma {:induction false} CharBitsAppend(s: string, c: char)
    requires AllBase32(s) && Base32Value(c) >= 0
    ensures AllBase32(s + [c])
    ensures CharBits(s + [c]) == CharBits(s) + ToBits(Base32Value(c), 5)
  {
    if s != [] {
      assert (s + [c])[1..] == s[1..] + [c];
      CharBitsAppend(s[1..], c);
    } else {
      assert s + [c] == [c];
    }
  }

  lemma CharBitsPrefix(s: string, i: nat)
    requires i < |s| && AllBase32(s[..i]) && Base32Value(s[i]) >= 0
    ensures AllBase32(s[..i + 1])
    ensures CharBits(s[..i + 1]) == CharBits(s[..i]) + ToBits(Base32Value(s[i]), 5)
  {
    CharBitsAppend(s[..i], s[i]);
    assert s[..i + 1] == s[..i] + [s[i]];
  }

  /** The bytes of decodeBase32's second loop: each complete run of eight
      bits, a trailing run of fewer than eight dropped. */
  function Groups8(bits: seq<Bit>): (r: Bytes)
    ensures |r| == |bits| / 8
    decreases |bits|
  {
    if |bits| < 8 then []
    else
      assert Pow2(8) == 256;
      [FromBits(bits[..8])] + Groups8(bits[8..])
  }

  /** What decodeBase32 computes. */
  function Base32Decoding(input: string): Result<Bytes, string>
  {
    var clean := Clean(input);
    if AllBase32(clean) then Success(Groups8(CharBits(clean))) else Failure(InvalidBase32)
  }

  /** decodeBase32, with its two loops and its early return. */
  method DecodeBase32(input: string) returns (r: Result<Bytes, string>)
    ensures r == Base32Decoding(input)
  {
    var cleanInput := UpperCase(RemoveAll(input, '='));
    var bits: seq<Bit> := [];
    for i := 0 to |cleanInput|
      invariant AllBase32(cleanInput[..i])
      invariant bits == CharBits(cleanInput[..i])
    {
      var index := IndexOf(Base32Alphabet, cleanInput[i]);
      Base32IndexOf(cleanInput[i]);
      if index == -1 {
        return Failure(InvalidBase32);
      }
      CharBitsPrefix(cleanInput, i);
      bits := bits + ToBits(index, 5);
    }
    assert cleanInput[..|cleanInput|] == cleanInput;
    var bytes := ByteGroups(bits);
    return Success(bytes);
  }

  /** decodeBase32's second loop: `i += 8`, leaving by `break` before a
      trailing run shorter than eight. */
  method ByteGroups(bits: seq<Bit>) returns (result: Bytes)
    ensures result == Groups8(bits)
  {
    result := [];
    var i := 0;
    while i < |bits|
      invariant 0 <= i <= |bits|
      invariant result + Groups8(bits[i..]) == Groups8(bits)
    {
      if |bits| - i < 8 {
        break;
      }
      var byte := bits[i..i + 8];
      assert Pow2(8) == 256;
      assert bits[i..][..8] == byte && bits[i..][8..] == bits[i + 8..];
      result := result + [FromBits(byte)];
      i := i + 8;
    }
  }

  /** Upper-casing leaves alphabet characters alone. */
  lemma {:induction false} UpperCaseAlphabet(s: string)
    requires AllBase32(s)
    ensures UpperCase(s) == s
  {
    if s != [] {
      UpperCaseAlphabet(s[1..]);
      assert s == [s[0]] + s[1..];
    }
  }

  /** The character a padded chunk selects decodes to that chunk. */
  lemma ChunkChar(p: seq<Bit>)
    requires |p| == 5
    ensures FromBits(p) < 32
    ensures Base32Value(Base32Alphabet[FromBits(p)]) == FromBits(p)
    ensures ToBits(FromBits(p), 5) == p
  {
    assert Pow2(5) == 32;
    Base32Table();
    ToFromBits(p);
  }

  /** One step of the chunking: the first chunk's character, then the rest. */
  lemma Chunks5Head(bits: seq<Bit>)
    requires bits != []
    ensures var n := Min(5, |bits|);
      Chunks5(bits) == [Base32Alphabet[FromBits(PadEnd5(bits[..n]))]] + Chunks5(bits[n..])
  {
  }

  lemma CharBitsCons(c: char, t: string)
    requires Base32Value(c) >= 0 && AllBase32(t)
    ensures AllBase32([c] + t)
    ensures CharBits([c] + t) == ToBits(Base32Value(c), 5) + CharBits(t)
  {
    assert ([c] + t)[0] == c && ([c] + t)[1..] == t;
  }

  /** The first character of the chunking gives back its padded chunk. */
  lemma ChunkHead(bits: seq<Bit>)
    requires bits != []
    ensures var n := Min(5, |bits|);
      AllBase32(Chunks5(bits)) && AllBase32(Chunks5(bits[n..])) &&
      CharBits(Chunks5(bits)) == PadEnd5(bits[..n]) + CharBits(Chunks5(bits[n..]))
  {
    var n := Min(5, |bits|);
    var p := PadEnd5(bits[..n]);
    var tail := Chunks5(bits[n..]);
    Chunks5Head(bits);
    Chunks5Alphabet(bits[n..]);
    ChunkChar(p);
    CharBitsCons(Base32Alphabet[FromBits(p)], tail);
  }

  /** The number of zero bits that complete the last 5-bit chunk of m bits. */
  function Fill5(m: nat): (f: nat)
    ensures f < 5 && (m + f) % 5 == 0
  {
    (5 - m % 5) % 5
  }

  lemma FillCount(m: nat)
    ensures Fill5(m + 5) == Fill5(m)
    ensures 0 < m < 5 ==> Fill5(m) == 5 - m
  {
  }

  /** A last chunk shorter than five bits decodes to itself and its fill. */
  lemma PadEndFill(bits: seq<Bit>)
    requires 0 < |bits| < 5
    ensures PadEnd5(bits) == bits + Zeros(Fill5(|bits|))
  {
    FillCount(|bits|);
  }

  lemma FullChunkFill(bits: seq<Bit>)
    requires |bits| >= 5
    ensures PadEnd5(bits[..5]) + (bits[5..] + Zeros(Fill5(|bits| - 5))) == bits + Zeros(Fill5(|bits|))
  {
    FillCount(|bits| - 5);
    assert PadEnd5(bits[..5]) == bits[..5];
  }

  lemma ShortChunk(bits: seq<Bit>)
    requires 0 < |bits| < 5
    ensures AllBase32(Chunks5(bits))
    ensures CharBits(Chunks5(bits)) == bits + Zeros(Fill5(|bits|))
  {
    Chunks5Head(bits);
    assert Min(5, |bits|) == |bits|;
    assert bits[..|bits|] == bits && bits[|bits|..] == [];
    var p := PadEnd5(bits);
    ChunkChar(p);
    var ch := Base32Alphabet[FromBits(p)];
    assert Chunks5(bits) == [ch] + [];
    CharBitsCons(ch, []);
    assert [ch] + [] == [ch];
    PadEndFill(bits);
    assert p + [] == p;
  }

  /** decodeBase32's bits for encodeBase32's characters are the encoded
      bits followed by the zeros that filled the last chunk. */
  lemma {:induction false} CharBitsChunks(bits: seq<Bit>)
    ensures AllBase32(Chunks5(bits))
    ensures CharBits(Chunks5(bits)) == bits + Zeros(Fill5(|bits|))
    decreases |bits|
  {
    if bits == [] {
    } else if |bits| < 5 {
      ShortChunk(bits);
    } else {
      ChunkHead(bits);
      var rest := bits[5..];
      assert Min(5, |bits|) == 5;
      CharBitsChunks(rest);
      FullChunkFill(bits);
    }
  }

  /** The complete bytes of a bit string built from bytes, followed by fewer
      than eight zeros, are those bytes. */
  lemma {:induction false} Groups8ByteBits(input: Bytes, pad: nat)
    requires pad < 8
    ensures Groups8(ByteBits(input) + Zeros(pad)) == input
  {
    if input != [] {
      var bits := ByteBits(input) + Zeros(pad);
      assert bits[..8] == ToBits(input[0], 8);
      assert bits[8..] == ByteBits(input[1..]) + Zeros(pad);
      assert Pow2(8) == 256;
      FromToBits(input[0], 8);
      Groups8ByteBits(input[1..], pad);
      assert input == [input[0]] + input[1..];
    }
  }

  /** Cleaning encodeBase32's output leaves just its alphabet characters. */
  lemma CleanEncoding(input: Bytes)
    ensures Clean(Base32Encoding(input)) == Chunks5(ByteBits(input))
  {
    var chars := Chunks5(ByteBits(input));
    Chunks5Alphabet(ByteBits(input));
    assert '=' !in chars by {
      forall i | 0 <= i < |chars| ensures chars[i] != '=' {
        assert Base32Value(chars[i]) >= 0;
      }
    }
    var pad := (8 - |chars| % 8) % 8;
    assert Base32Encoding(input) == chars + Repeat('=', pad);
    RemoveAllAppend(chars, Repeat('=', pad), '=');
    RemoveAllAbsent(chars, '=');
    RemoveAllRepeat('=', pad);
    assert chars + [] == chars;
    UpperCaseAlphabet(chars);
  }

  /** decodeBase32 inverts encodeBase32 on every binary string, the empty one included. */
  lemma Base32RoundTrip(input: Bytes)
    ensures Base32Decoding(Base32Encoding(input)) == Success(input)
  {
    var bits := ByteBits(input);
    CleanEncoding(input);
    CharBitsChunks(bits);
    Groups8ByteBits(input, Fill5(|bits|));
  }

  /** k characters that survive cleaning decode to floor(5k/8) bytes: the
      bits of an incomplete last byte are dropped, not reported. */
  lemma Base32DecodedLength(input: string)
    requires Base32Decoding(input).Success?
    ensures |Base32Decoding(input).value| == 5 * |Clean(input)| / 8
  {
  }

  /** decodeBase32 fails exactly when a character left after cleaning is
      outside A-Z and 2-7, and then returns the sentinel. */
  lemma Base32DecodingFails(input: string)
    ensures Base32Decoding(input).Failure? <==>
      exists i :: 0 <= i < |Clean(input)| && Base32Value(Clean(input)[i]) < 0
    ensures Base32Decoding(input).Failure? ==> Base32Decoding(input).error == InvalidBase32
  {
  }

  /** The ASCII lower-case form of s. */
  function AsciiLower(s: string): (r: string)
    ensures |r| == |s|
  {
    seq(|s|, i requires 0 <= i < |s| => if 'A' <= s[i] <= 'Z' then (s[i] as int + 32) as char else s[i])
  }

  lemma {:induction false} RemoveAllLower(s: string)
    ensures RemoveAll(AsciiLower(s), '=') == AsciiLower(RemoveAll(s, '='))
  {
    if s != [] {
      assert AsciiLower(s)[1..] == AsciiLower(s[1..]);
      RemoveAllLower(s[1..]);
      assert AsciiLower(RemoveAll(s, '=')) ==
        AsciiLower(if s[0] == '=' then [] else [s[0]]) + AsciiLower(RemoveAll(s[1..], '='));
    }
  }

  lemma {:induction false} UpperCaseLower(s: string)
    ensures UpperCase(AsciiLower(s)) == UpperCase(s)
  {
    if s != [] {
      assert AsciiLower(s)[1..] == AsciiLower(s[1..]);
      UpperCaseLower(s[1..]);
    }
  }

  /** decodeBase32 is case-insensitive: lower-case input decodes as the upper-case. */
  lemma Base32CaseInsensitive(input: string)
    ensures Base32Decoding(AsciiLower(input)) == Base32Decoding(input)
  {
    RemoveAllLower(input);
    UpperCaseLower(RemoveAll(input, '='));
  }

  // ------------------------------------------------------------------- hex

  /** encodeHex: for each code point, charCodeAt(0) in radix 16, padded to
      at least two digits. */
  function EncodeHex(input: string): (r: string)
    ensures |r| >= 2 * |input|
    ensures forall i :: 0 <= i < |r| ==> HexDigitValue(r[i] as int) >= 0
  {
    if input == [] then []
    else PadStart2(ToHexString(CharCodeAt0(input[0]))) + EncodeHex(input[1..])
  }

  /** r spells the characters of the binary string s as two lower-case
      digits apiece, high nibble first. */
  predicate SpellsBytes(r: string, s: string)
    requires IsBinary(s)
  {
    |r| == 2 * |s| && forall k :: 0 <= k < |s| ==>
      r[2 * k] == HexChar(s[k] as int / 16) && r[2 * k + 1] == HexChar(s[k] as int % 16)
  }

  lemma SpellsCons(s: string, t: string)
    requires s != [] && IsBinary(s) && SpellsBytes(t, s[1..])
    ensures SpellsBytes([HexChar(s[0] as int / 16), HexChar(s[0] as int % 16)] + t, s)
  {
    var r := [HexChar(s[0] as int / 16), HexChar(s[0] as int % 16)] + t;
    forall k | 0 <= k < |s|
      ensures r[2 * k] == HexChar(s[k] as int / 16) && r[2 * k + 1] == HexChar(s[k] as int % 16)
    {
      if k > 0 {
        var j := k - 1;
        assert s[1..][j] == s[k];
        assert r[2 * k] == t[2 * j] && r[2 * k + 1] == t[2 * j + 1];
      }
    }
  }

  /** On a binary string encodeHex writes exactly two lower-case digits per
      character, high nibble first. */
  lemma {:induction false} EncodeHexBinary(s: string)
    requires IsBinary(s)
    ensures SpellsBytes(EncodeHex(s), s)
  {
    if s != [] {
      HexOfByte(s[0] as int);
      EncodeHexBinary(s[1..]);
      SpellsCons(s, EncodeHex(s[1..]));
    }
  }

  /** parseInt(hex.substr(2 * k, 2), 16), in its two-unit closed form. */
  function PairValue(hex: seq<CodeUnit>, k: nat): (r: Option<int>)
    requires 2 * k + 2 <= |hex|
    ensures r.Some? ==> -16 < r.value < 256
  {
    ParsePair(hex[2 * k], hex[2 * k + 1])
  }

  /** Every pair of code units parses to a number, not NaN. */
  predicate PairsParse(hex: seq<CodeUnit>)
    requires |hex| % 2 == 0
  {
    forall k :: 0 <= k < |hex| / 2 ==> PairValue(hex, k).Some?
  }

  /** decodeHex's loop over the first n pairs: None as soon as a pair
      parses to NaN, and otherwise each pair's number, taken modulo 2^16, as
      one code unit. */
  function DecodedPairs(hex: seq<CodeUnit>, n: nat): (r: Option<seq<CodeUnit>>)
    requires 2 * n <= |hex|
    ensures r.Some? ==> |r.value| == n
  {
    if n == 0 then Some([])
    else match DecodedPairs(hex, n - 1)
      case None => None
      case Some(units) =>
        match PairValue(hex, n - 1)
        case None => None
        case Some(v) => Some(units + [FromCharCode(v)])
  }

  function PairsDecoding(hex: seq<CodeUnit>): (r: Option<seq<CodeUnit>>)
    requires |hex| % 2 == 0
  {
    DecodedPairs(hex, |hex| / 2)
  }

  /** The first n pairs decode exactly when each of them parses, and then
      to the code unit of each. */
  lemma {:induction false} DecodedPairsMeaning(hex: seq<CodeUnit>, n: nat)
    requires 2 * n <= |hex|
    ensures DecodedPairs(hex, n).Some? <==> forall j :: 0 <= j < n ==> PairValue(hex, j).Some?
    ensures DecodedPairs(hex, n).Some? ==> forall j :: 0 <= j < n ==>
      DecodedPairs(hex, n).value[j] == FromCharCode(PairValue(hex, j).value)
  {
    if n > 0 {
      DecodedPairsMeaning(hex, n - 1);
      var last := PairValue(hex, n - 1);
      if DecodedPairs(hex, n - 1).Some? && last.Some? {
        var units := DecodedPairs(hex, n - 1).value;
        var r := units + [FromCharCode(last.value)];
        assert DecodedPairs(hex, n) == Some(r);
        assert forall j :: 0 <= j < n - 1 ==> r[j] == units[j];
      }
    }
  }

  /** One more pair: its code unit appended, or None if it is NaN. */
  lemma DecodedPairsStep(hex: seq<CodeUnit>, k: nat)
    requires 2 * k + 2 <= |hex| && DecodedPairs(hex, k).Some?
    ensures PairValue(hex, k).None? ==> DecodedPairs(hex, k + 1).None?
    ensures PairValue(hex, k).Some? ==>
      DecodedPairs(hex, k + 1) == Some(DecodedPairs(hex, k).value + [FromCharCode(PairValue(hex, k).value)])
  {
  }

  /** Once a pair fails, no longer prefix decodes. */
  lemma {:induction false} DecodedPairsStuck(hex: seq<CodeUnit>, n: nat, m: nat)
    requires n <= m && 2 * m <= |hex| && DecodedPairs(hex, n).None?
    ensures DecodedPairs(hex, m).None?
    decreases m - n
  {
    if n < m {
      DecodedPairsStuck(hex, n + 1, m);
    }
  }

  lemma PairsDecodingMeaning(hex: seq<CodeUnit>)
    requires |hex| % 2 == 0
    ensures PairsDecoding(hex).Some? <==> PairsParse(hex)
    ensures PairsDecoding(hex).Some? ==> |PairsDecoding(hex).value| == |hex| / 2
    ensures PairsDecoding(hex).Some? ==> forall k :: 0 <= k < |hex| / 2 ==>
      PairsDecoding(hex).value[k] == FromCharCode(PairValue(hex, k).value)
  {
    DecodedPairsMeaning(hex, |hex| / 2);
  }

  /** What decodeHex computes: white space removed, then an odd number of
      code units, or a pair parseInt reads as NaN, gives the sentinel. */
  function HexDecoding(input: string): Result<seq<CodeUnit>, string>
  {
    var hex := Utf16(RemoveSpaces(input));
    if |hex| % 2 != 0 then Failure(InvalidHex)
    else match PairsDecoding(hex)
      case None => Failure(InvalidHex)
      case Some(units) => Success(units)
  }

  /** decodeHex. */
  method DecodeHex(input: string) returns (r: Result<seq<CodeUnit>, string>)
    ensures r == HexDecoding(input)
  {
    var hex := Utf16(RemoveSpaces(input));
    if |hex| % 2 != 0 {
      return Failure(InvalidHex);
    }
    var units := DecodePairs(hex);
    if units.None? {
      return Failure(InvalidHex);
    }
    return Success(units.value);
  }

  /** The for loop of decodeHex over an even number of code units. */
  method DecodePairs(hex: seq<CodeUnit>) returns (r: Option<seq<CodeUnit>>)
    requires |hex| % 2 == 0
    ensures r == PairsDecoding(hex)
  {
    var result: seq<CodeUnit> := [];
    var i := 0;
    ghost var k, n := 0, |hex| / 2;
    assert |hex| == 2 * n;
    while i < |hex|
      invariant i == 2 * k && k <= n
      invariant DecodedPairs(hex, k) == Some(result)
    {
      var byte := ParseSubstr2(hex, i);
      DecodedPairsStep(hex, k);
      if byte.None? {
        DecodedPairsStuck(hex, k + 1, n);
        return None;
      }
      result := result + [FromCharCode(byte.value)];
      i, k := i + 2, k + 1;
    }
    return Some(result);
  }

  /** An odd number of code units after white space is removed is rejected. */
  lemma HexOddFails(input: string)
    requires |Utf16(RemoveSpaces(input))| % 2 == 1
    ensures HexDecoding(input) == Failure(InvalidHex)
  {
  }

  /** A successful decoding has one code unit per pair. */
  lemma HexDecodedLength(input: string)
    requires HexDecoding(input).Success?
    ensures 2 * |HexDecoding(input).value| == |Utf16(RemoveSpaces(input))|
  {
  }

  /** decodeHex ignores white space anywhere in its input. */
  lemma {:induction false} RemoveSpacesTwice(s: string)
    ensures RemoveSpaces(RemoveSpaces(s)) == RemoveSpaces(s)
  {
    RemoveSpacesNone(RemoveSpaces(s));
  }

  lemma HexSpaceInsensitive(input: string)
    ensures HexDecoding(RemoveSpaces(input)) == HexDecoding(input)
  {
    RemoveSpacesTwice(input);
  }

  /** Two code points below U+10000, neither of them white space, are two
      code units after white space is removed. */
  lemma PlainPair(c0: char, c1: char)
    requires !IsSpace(c0) && !IsSpace(c1) && c0 as int < 0x1_0000 && c1 as int < 0x1_0000
    ensures RemoveSpaces([c0, c1]) == [c0, c1]
    ensures Utf16([c0, c1]) == [c0 as int, c1 as int]
  {
    RemoveSpacesNone([c0, c1]);
    assert [c0, c1][1..] == [c1];
    assert [c1][1..] == [];
  }

  /** decodeHex on a single pair is parseInt's reading of it. */
  lemma HexDecodingPair(c0: char, c1: char)
    requires !IsSpace(c0) && !IsSpace(c1) && c0 as int < 0x1_0000 && c1 as int < 0x1_0000
    ensures HexDecoding([c0, c1]) == match ParsePair(c0 as int, c1 as int)
      case None => Failure(InvalidHex)
      case Some(v) => Success([FromCharCode(v)])
  {
    PlainPair(c0, c1);
    var hex: seq<CodeUnit> := [c0 as int, c1 as int];
    assert PairValue(hex, 0) == ParsePair(c0 as int, c1 as int);
    assert Utf16(RemoveSpaces([c0, c1])) == hex;
    assert PairsDecoding(hex) == DecodedPairs(hex, 1);
    assert DecodedPairs(hex, 0) == Some([]);
    if PairValue(hex, 0).Some? {
      var u := FromCharCode(PairValue(hex, 0).value);
      assert [] + [u] == [u];
      assert DecodedPairs(hex, 1) == Some([u]);
    }
  }

  /** decodeHex as written accepts pairs that are not two hexadecimal
      digits: parseInt reads a sign and one digit, or a digit before any
      other character, and String.fromCharCode wraps a negative result. */
  lemma HexDecodingLenient()
    ensures HexDecoding("-1") == Success([0xFFFF])
    ensures HexDecoding("4g") == Success([4])
    ensures HexDecoding("0x") == Failure(InvalidHex)
  {
    HexDecodingPair('-', '1');
    HexDecodingPair('4', 'g');
    HexDecodingPair('0', 'x');
  }

  /** The decoding decodeHex evidently intends: every code unit must be a
      hexadecimal digit, and each pair is the byte it spells. */
  function HexDecodingStrict(input: string): (r: Result<Bytes, string>)
    ensures r.Failure? ==> r.error == InvalidHex
  {
    StrictPairs(Utf16(RemoveSpaces(input)))
  }

  /** The strict reading of code units: all digits, an even number of them. */
  function StrictPairs(hex: seq<CodeUnit>): (r: Result<Bytes, string>)
    ensures r.Failure? ==> r.error == InvalidHex
  {
    if |hex| % 2 != 0 || exists i :: 0 <= i < |hex| && HexDigitValue(hex[i]) < 0 then Failure(InvalidHex)
    else Success(seq(|hex| / 2, k requires 0 <= k < |hex| / 2 =>
      16 * HexDigitValue(hex[2 * k]) + HexDigitValue(hex[2 * k + 1])))
  }

  /** Digits that spell the bytes of b, pair by pair, read back as b. */
  lemma StrictPairsOf(hex: seq<CodeUnit>, b: Bytes)
    requires |hex| == 2 * |b|
    requires forall i :: 0 <= i < |hex| ==> HexDigitValue(hex[i]) >= 0
    requires forall k :: 0 <= k < |b| ==> 16 * HexDigitValue(hex[2 * k]) + HexDigitValue(hex[2 * k + 1]) == b[k]
    ensures StrictPairs(hex) == Success(b)
  {
    assert |hex| % 2 == 0 && |hex| / 2 == |b|;
    var r := StrictPairs(hex);
    assert r.Success?;
    assert r.value == b;
  }

  /** Wherever the strict decoding accepts, decodeHex as written agrees. */
  lemma StrictAgrees(input: string)
    requires HexDecodingStrict(input).Success?
    ensures HexDecoding(input).Success?
    ensures HexDecoding(input).value == HexDecodingStrict(input).value
  {
    StrictPairsAgree(Utf16(RemoveSpaces(input)));
  }

  /** Code units the strict reading accepts decode pair by pair to the same
      numbers under the loop of decodeHex. */
  lemma StrictPairsAgree(hex: seq<CodeUnit>)
    requires StrictPairs(hex).Success?
    ensures |hex| % 2 == 0 && PairsDecoding(hex) == Some(StrictPairs(hex).value)
  {
    var b := StrictPairs(hex).value;
    assert |b| == |hex| / 2;
    forall k | 0 <= k < |hex| / 2
      ensures PairValue(hex, k) == Some(b[k] as int)
    {
      assert b[k] == 16 * HexDigitValue(hex[2 * k]) + HexDigitValue(hex[2 * k + 1]);
    }
    PairsDecodingMeaning(hex);
    var units := PairsDecoding(hex).value;
    assert |units| == |b|;
    forall k | 0 <= k < |b|
      ensures units[k] == b[k]
    {
      assert units[k] == FromCharCode(PairValue(hex, k).value);
    }
    assert units == b;
  }

  /** The strict decoding rejects both lenient inputs. */
  lemma StrictRejects()
    ensures HexDecodingStrict("-1") == Failure(InvalidHex)
    ensures HexDecodingStrict("4g") == Failure(InvalidHex)
  {
    PlainPair('-', '1');
    PlainPair('4', 'g');
  }

  /** The strict decoding inverts encodeHex on every binary string. */
  lemma StrictRoundTrip(b: Bytes)
    ensures HexDecodingStrict(EncodeHex(FromBytes(b))) == Success(b)
  {
    var s := FromBytes(b);
    var e := EncodeHex(s);
    EncodeHexBinary(s);
    DigitsPlain(e);
    var hex := Utf16(RemoveSpaces(e));
    assert hex == ToBytes(e);
    forall k | 0 <= k < |b|
      ensures 16 * HexDigitValue(hex[2 * k]) + HexDigitValue(hex[2 * k + 1]) == b[k]
    {
      assert hex[2 * k] == HexChar(b[k] / 16) as int;
      assert hex[2 * k + 1] == HexChar(b[k] % 16) as int;
    }
    forall i | 0 <= i < |hex| ensures HexDigitValue(hex[i]) >= 0 {
      assert hex[i] == e[i] as int;
    }
    StrictPairsOf(hex, b);
  }

  /** decodeHex as written inverts encodeHex on every binary string. */
  lemma HexRoundTrip(b: Bytes)
    ensures HexDecoding(EncodeHex(FromBytes(b))) == Success(b)
  {
    StrictRoundTrip(b);
    StrictAgrees(EncodeHex(FromBytes(b)));
  }

  /** encodeHex of a single code point. */
  lemma EncodeHexOne(c: char)
    ensures EncodeHex([c]) == PadStart2(ToHexString(CharCodeAt0(c)))
  {
    assert [c][1..] == [];
  }

  lemma HexStringLength(n: nat)
    ensures n < 16 ==> |ToHexString(n)| == 1
    ensures 16 <= n < 256 ==> |ToHexString(n)| == 2
    ensures 256 <= n < 4096 ==> |ToHexString(n)| == 3
  {
    if n >= 16 {
      HexStringLength(n / 16);
    }
  }

  /** A code point from U+0100 to U+0FFF takes three digits, an odd count
      decodeHex rejects, so encodeHex cannot be read back beyond bytes. */
  lemma EncodeHexWideFails(c: char)
    requires 0x100 <= c as int < 0x1000
    ensures |EncodeHex([c])| == 3
    ensures HexDecoding(EncodeHex([c])) == Failure(InvalidHex)
  {
    EncodeHexOne(c);
    HexStringLength(c as int);
    var e := EncodeHex([c]);
    DigitsPlain(e);
    HexOddFails(e);
  }

  /** A code point above U+FFFF is written as its high surrogate alone, so
      two that share it encode alike. */
  lemma EncodeHexSurrogate(c: char, d: char)
    requires c as int >= 0x1_0000 && d as int >= 0x1_0000
    requires (c as int - 0x1_0000) / 0x400 == (d as int - 0x1_0000) / 0x400
    ensures 0xD800 <= CharCodeAt0(c) < 0xDC00
    ensures EncodeHex([c]) == EncodeHex([d])
  {
    EncodeHexOne(c);
    EncodeHexOne(d);
  }

  lemma EncodeHexSurrogateExample()
    ensures EncodeHex("\U{1F600}") == EncodeHex("\U{1F601}")
  {
    EncodeHexSurrogate('\U{1F600}', '\U{1F601}');
  }
}
