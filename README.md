# JWT Encoding Toolkit: the codecs and the token functions in Dafny

This project models the two utility files of the JWT Encoding Toolkit and
proves properties of the model.

- `src/utils/encoding.ts` holds the text codecs: Base64, its URL-safe variant
  without padding, Base32 (section 6 of RFC 4648) built through a string of
  binary digits, and lower-case hexadecimal.
- `src/utils/jwt.ts` holds the HS256 token functions: `createJWT`,
  `decodeJWT` and `verifyJWT`.

JavaScript binary strings (one code unit per byte) are byte sequences here.
Text is a Dafny `string`. A thrown exception, or a rejected promise, is
`None`. An in-band sentinel such as `'Invalid Hex string'` is `Failure`
carrying that same text. The parts of the JavaScript runtime the core leans
on are written out in their own modules:

| module | what it stands for |
|---|---|
| `Wrappers` | `Option` and `Result` |
| `Binary` | bytes, `charCodeAt`/`String.fromCharCode` on binary strings, `toString(2).padStart`, `parseInt(_, 2)` |
| `Strings` | `replace(/x/g, y)`, `split('.')`, `indexOf` |
| `Base64` | `btoa` (RFC 4648, section 4) and `atob` (the WHATWG forgiving-base64 decode) |
| `Js` | UTF-16 code units, the `\s` class, `toString(16)`, `parseInt(_, 16)`, `String.fromCharCode` |
| `Utf8` | `TextEncoder.encode` (RFC 3629) |
| `Json` | `JSON.stringify` and `JSON.parse` on flat objects of strings, integers and booleans |
| `Encoding` | `src/utils/encoding.ts` |
| `Jwt` | `src/utils/jwt.ts` |

The loops of `encodeBase32`, `decodeBase32`, `decodeBase64Url`, `decodeHex`
and `base64UrlDecode` are methods with loops. Each is proved equal
to a function, and the properties are proved about those functions.
`createJWT` is a method that assigns the claims onto its copy of the
payload. HMAC-SHA-256 is a parameter `mac` from key bytes and message bytes
to tag bytes. The two readings of `Date.now()` are the parameters `clock1`
and `clock2`.

## Model

| member | source | states |
|---|---|---|
| Strings.Replace | src/utils/encoding.ts:15 | every occurrence of one character becomes another; the length and all other characters stay |
| Strings.RemoveAll | src/utils/encoding.ts:55 | the character no longer occurs and the text gets no longer |
| Strings.RemoveAllAppend | src/utils/encoding.ts:15 | removing a character distributes over concatenation |
| Strings.Split | src/utils/jwt.ts:71 | at least one part; no part holds the separator; joining the parts with it gives the text back |
| Strings.SplitJoin | src/utils/jwt.ts:71 | splitting inverts joining when no part holds the separator |
| Strings.SplitThree | src/utils/jwt.ts:71-72 | three separator-free parts joined by '.' split back into exactly those three |
| Strings.IndexOf | src/utils/encoding.ts:59 | the first position holding the character, or -1 exactly when it is absent |
| Binary.ToBits | src/utils/encoding.ts:36 | `toString(2).padStart(w, '0')` of a value below 2^w has exactly w digits; wider values are outside its domain, since `padStart` never truncates |
| Binary.FromBits | src/utils/encoding.ts:42 | `parseInt(_, 2)` of n digits is below 2^n |
| Binary.FromToBits | src/utils/encoding.ts:36-42 | reading back the fixed-width digits of a value that fits gives the value |
| Binary.ToFromBits | src/utils/encoding.ts:61-68 | writing a digit string's value at its own width gives the digits back |
| Binary.ToBytes | src/utils/encoding.ts:35 | one byte per character, each its character code |
| Binary.FromBytes | src/utils/encoding.ts:68 | `String.fromCharCode` per byte gives a binary string of the same length and codes |
| Binary.BytesRoundTrip | src/utils/jwt.ts:35-36 | bytes written as characters read back as the same bytes |
| Binary.StringRoundTrip | src/utils/encoding.ts:2 | a binary string read as bytes and written back is unchanged |
| Base64.Encode | src/utils/encoding.ts:2 | `btoa` output has length 4 * ceil(n / 3) |
| Base64.EncodeGroups | src/utils/encoding.ts:2 | the unpadded groups are (4n + 2) / 3 alphabet characters |
| Base64.DecodeEncode | src/utils/encoding.ts:2-7 | `atob` inverts `btoa` on every binary string |
| Base64.Decode | src/utils/encoding.ts:7 | `atob` (also at src/utils/encoding.ts:24 and src/utils/jwt.ts:13): definition — strip ASCII white space, drop one or two final '=' from a length divisible by four, fail on a length of 1 mod 4 or a character outside the alphabet; its meaning is carried by `Base64.DecodeEncode` and `Encoding.DecodeBase64` |
| Base64.ToUrlAlphabet | src/utils/encoding.ts:15 | the URL-safe text contains no '+', '/', '=' or '.' |
| Base64.ToUrl | src/utils/encoding.ts:15 | the `replace` chain (also src/utils/jwt.ts:5): definition; its meaning is carried by `Base64.ToUrlAlphabet` and `Base64.ToUrlEncode` |
| Base64.FromUrl | src/utils/encoding.ts:20 | the reverse `replace` chain (also src/utils/jwt.ts:9) keeps the length and leaves no '-' or '_'; `Base64.FromUrlSafe` shows it undoes `ToUrl`'s substitutions |
| Base64.PadTo4 | src/utils/encoding.ts:21-23 | the padding loop's result: the input, then '=' up to the next multiple of four |
| Base64.FromUrlToUrl | src/utils/encoding.ts:15-23 | undoing the substitutions and re-padding restores `btoa`'s output exactly |
| Base64.UrlRoundTrip | src/utils/encoding.ts:13-24 | the URL-safe text of any bytes decodes back to them |
| Base64.RemoveWhitespace | src/utils/encoding.ts:7 | `atob` ignores ASCII white space: none is left |
| Js.CodeUnits | src/utils/encoding.ts:79 | one code unit below U+10000, else a high and a low surrogate |
| Js.Utf16 | src/utils/encoding.ts:86 | a string has between one and two code units per code point |
| Js.Utf16Append | src/utils/encoding.ts:86 | the code units of a concatenation are the concatenated code units |
| Js.Utf16Binary | src/utils/encoding.ts:86 | a binary string's code units are its bytes |
| Js.CharCodeAt0 | src/utils/encoding.ts:79 | `charCodeAt(0)` of a character below U+10000 is its code |
| Js.RemoveSpaces | src/utils/encoding.ts:85 | no `\s` character is left |
| Js.RemoveSpacesNone | src/utils/encoding.ts:85 | text without `\s` characters is unchanged |
| Js.HexDigitValue | src/utils/encoding.ts:90 | a radix-16 digit of either case has its value below 16; anything else is -1 |
| Js.HexChar | src/utils/encoding.ts:79 | the lower-case digit written for a value reads back as that value |
| Js.ToHexString | src/utils/encoding.ts:79 | `toString(16)` gives at least one digit, all radix-16 digits, no leading zero |
| Js.NumeralToHexString | src/utils/encoding.ts:79-90 | `parseInt(_, 16)` reads back what `toString(16)` writes |
| Js.HexOfByte | src/utils/encoding.ts:79 | a byte is written as its high and its low digit |
| Js.PadStart2 | src/utils/encoding.ts:79 | `padStart(2, '0')` left-fills with zeros to two characters and keeps longer text |
| Js.DigitRun | src/utils/encoding.ts:90 | the length of the longest prefix of radix-16 digits |
| Js.ParseIntHex | src/utils/encoding.ts:90 | `parseInt(_, 16)`: definition — optional sign, optional "0x"/"0X", the longest digit run, NaN for an empty run; its meaning is carried by `Js.NumeralToHexString`, `Js.ParsePairAgrees` and `Js.ParseTwoDigits` |
| Js.FromCharCode | src/utils/encoding.ts:92 | `String.fromCharCode` keeps a code unit and wraps a negative one modulo 2^16 |
| Js.ParsePair | src/utils/encoding.ts:90 | a two-unit `parseInt(_, 16)` result lies strictly between -16 and 256 |
| Js.ParsePairAgrees | src/utils/encoding.ts:90 | the case-by-case reading agrees with `parseInt(_, 16)` on every pair |
| Js.ParseTwoDigits | src/utils/encoding.ts:90 | two digits read as the byte they spell |
| Js.ParseDigitThenOther | src/utils/encoding.ts:90 | a digit before a non-digit, other than "0x", reads as that digit alone |
| Js.ParseSubstr2 | src/utils/encoding.ts:90 | `parseInt(hex.substr(i, 2), 16)` is the pair reading of units i and i + 1 |
| Encoding.EncodeBase64 | src/utils/encoding.ts:1-3 | `encodeBase64` output has length 4 * ceil(n / 3) |
| Encoding.DecodeBase64 | src/utils/encoding.ts:5-11 | the sentinel 'Invalid Base64 string' exactly where `atob` throws |
| Encoding.Base64RoundTrip | src/utils/encoding.ts:1-11 | `decodeBase64` inverts `encodeBase64` |
| Encoding.EncodeBase64Url | src/utils/encoding.ts:13-16 | the output contains no '+', '/', '=' or '.' |
| Encoding.DecodeBase64Url | src/utils/encoding.ts:18-28 | the method with the padding loop computes the sentinel-or-bytes result of the closed form |
| Encoding.Base64UrlDecoding | src/utils/encoding.ts:18-28 | the closed form of `decodeBase64Url`: definition; `Encoding.DecodeBase64Url` is proved equal to it and `Encoding.Base64UrlRoundTrip` states its meaning |
| Encoding.Base64UrlRoundTrip | src/utils/encoding.ts:13-28 | `decodeBase64Url` inverts `encodeBase64Url` |
| Encoding.Base32Table | src/utils/encoding.ts:30 | the thirty-two alphabet characters are distinct and each reads as its own index |
| Encoding.Base32IndexOf | src/utils/encoding.ts:59 | `indexOf` in the alphabet is the character's Base32 value |
| Encoding.Base32ValueInjective | src/utils/encoding.ts:30 | two characters with the same valid value are the same character |
| Encoding.ByteBits | src/utils/encoding.ts:33-37 | eight bits per input byte |
| Encoding.ByteBitsAppend | src/utils/encoding.ts:34-37 | one more byte appends its eight bits |
| Encoding.PadEnd5 | src/utils/encoding.ts:41 | `padEnd(5, '0')` keeps the chunk and fills with zeros to five |
| Encoding.Chunks5 | src/utils/encoding.ts:40-44 | one character per started chunk of five bits |
| Encoding.Chunks5Alphabet | src/utils/encoding.ts:43 | every character written is an alphabet character |
| Encoding.PadTo8 | src/utils/encoding.ts:46-48 | '=' appended up to the next multiple of eight, the text kept as its prefix |
| Encoding.EncodeBase32 | src/utils/encoding.ts:32-51 | the three-loop method computes the closed-form Base32 text |
| Encoding.BitString | src/utils/encoding.ts:33-37 | the first loop builds the bit string of the input |
| Encoding.ChunkCharacters | src/utils/encoding.ts:39-44 | the second loop writes one alphabet character per chunk |
| Encoding.PadWithEquals | src/utils/encoding.ts:46-48 | the third loop pads with '=' to a multiple of eight |
| Encoding.Base32Encoding | src/utils/encoding.ts:32-51 | the closed form of `encodeBase32`: definition; `Encoding.EncodeBase32` is proved equal to it, and `Encoding.Base32EncodingShape` and `Encoding.Base32RoundTrip` state its meaning |
| Encoding.Base32EncodingLength | src/utils/encoding.ts:46-50 | the output length is a multiple of eight |
| Encoding.Base32EncodingShape | src/utils/encoding.ts:32-51 | ceil(8n / 5) alphabet characters followed only by '=' |
| Encoding.CharBits | src/utils/encoding.ts:58-62 | five bits per character |
| Encoding.UpperChar | src/utils/encoding.ts:55 | `toUpperCase` of one character: definition — ASCII letters and the few characters whose upper case lies in A-Z; its meaning is carried by `Encoding.UpperCaseAlphabet` and `Encoding.Base32CaseInsensitive` |
| Encoding.UpperCase | src/utils/encoding.ts:55 | `toUpperCase` of a string, character by character: definition; meaning in `Encoding.UpperCaseAlphabet` and `Encoding.Base32CaseInsensitive` |
| Encoding.Clean | src/utils/encoding.ts:55 | `cleanInput`: every '=' removed, then upper-cased: definition; meaning in `Encoding.CleanEncoding` and `Encoding.Base32DecodingFails` |
| Encoding.CharBitsAppend | src/utils/encoding.ts:58-62 | one more valid character appends its five bits |
| Encoding.Groups8 | src/utils/encoding.ts:64-69 | one byte per complete group of eight bits; an incomplete tail is dropped |
| Encoding.DecodeBase32 | src/utils/encoding.ts:53-75 | the method with its two loops and early return computes the closed-form result |
| Encoding.ByteGroups | src/utils/encoding.ts:64-69 | the second loop reads every complete group of eight bits as a byte |
| Encoding.Base32Decoding | src/utils/encoding.ts:53-75 | the closed form of `decodeBase32`: definition; `Encoding.DecodeBase32` is proved equal to it, and `Encoding.Base32RoundTrip`, `Encoding.Base32DecodingFails` and `Encoding.Base32DecodedLength` state its meaning |
| Encoding.UpperCaseAlphabet | src/utils/encoding.ts:55 | `toUpperCase` leaves alphabet text unchanged |
| Encoding.CharBitsChunks | src/utils/encoding.ts:40-62 | the bits of the written characters are the input bits followed by the zero fill of the last chunk |
| Encoding.Groups8ByteBits | src/utils/encoding.ts:64-69 | reading bytes back from their bits ignores fewer than eight trailing zero bits |
| Encoding.CleanEncoding | src/utils/encoding.ts:55 | removing '=' and upper-casing the Base32 text leaves exactly its characters |
| Encoding.Base32RoundTrip | src/utils/encoding.ts:32-75 | `decodeBase32` inverts `encodeBase32` |
| Encoding.Base32DecodedLength | src/utils/encoding.ts:64-69 | k cleaned characters decode to floor(5k / 8) bytes |
| Encoding.Base32DecodingFails | src/utils/encoding.ts:58-60 | the sentinel exactly when a cleaned character is outside the alphabet |
| Encoding.Base32CaseInsensitive | src/utils/encoding.ts:55 | lower-case input decodes as the upper-case input |
| Encoding.EncodeHex | src/utils/encoding.ts:77-81 | at least two radix-16 digits per character, and nothing else |
| Encoding.EncodeHexBinary | src/utils/encoding.ts:77-81 | a binary string is spelled as two lower-case digits per byte, high nibble first |
| Encoding.EncodeHexOne | src/utils/encoding.ts:79 | one character is written as its first code unit in radix 16, padded to two |
| Encoding.DecodedPairsMeaning | src/utils/encoding.ts:89-93 | the pair loop succeeds exactly when `parseInt` reads every pair, and then holds each `fromCharCode` |
| Encoding.PairsDecodingMeaning | src/utils/encoding.ts:89-93 | all pairs decoded: one code unit per pair, each the wrapped reading of its pair |
| Encoding.DecodeHex | src/utils/encoding.ts:83-98 | the method with its early returns computes the closed-form result |
| Encoding.DecodePairs | src/utils/encoding.ts:89-93 | the loop over pairs computes the pairwise reading, stopping at the first NaN |
| Encoding.HexDecoding | src/utils/encoding.ts:83-98 | the closed form of `decodeHex`: definition; `Encoding.DecodeHex` is proved equal to it, and `Encoding.HexRoundTrip`, `Encoding.HexOddFails` and `Encoding.HexSpaceInsensitive` state its meaning |
| Encoding.HexOddFails | src/utils/encoding.ts:86 | an odd number of code units after removing white space gives the sentinel |
| Encoding.HexDecodedLength | src/utils/encoding.ts:89-93 | a success holds one code unit per pair |
| Encoding.HexSpaceInsensitive | src/utils/encoding.ts:85 | white space anywhere in the input changes nothing |
| Encoding.HexDecodingPair | src/utils/encoding.ts:85-93 | a two-character input decodes to the wrapped pair reading, or gives the sentinel where it is NaN |
| Encoding.HexDecodingLenient | src/utils/encoding.ts:90-92 | as written, "-1" decodes to U+FFFF and "4g" to U+0004, while "0x" gives the sentinel |
| Encoding.HexDecodingStrict | src/utils/encoding.ts:83-98 | the strict decoding fails only with the sentinel |
| Encoding.StrictAgrees | src/utils/encoding.ts:83-98 | wherever the strict decoding succeeds, `decodeHex` gives the same result |
| Encoding.StrictRejects | src/utils/encoding.ts:90-91 | the strict decoding rejects "-1" and "4g" |
| Encoding.StrictRoundTrip | src/utils/encoding.ts:77-98 | the strict decoding inverts `encodeHex` on every binary string |
| Encoding.HexRoundTrip | src/utils/encoding.ts:77-98 | `decodeHex` inverts `encodeHex` on every binary string |
| Encoding.HexStringLength | src/utils/encoding.ts:79 | `toString(16)` has one digit below 16, two below 256, three below 4096 |
| Encoding.EncodeHexWideFails | src/utils/encoding.ts:79-86 | a character from U+0100 to U+0FFF is written as three digits, and that text gives the sentinel |
| Encoding.EncodeHexSurrogate | src/utils/encoding.ts:79 | two astral characters with the same high surrogate get the same hex text |
| Encoding.EncodeHexSurrogateExample | src/utils/encoding.ts:79 | U+1F600 and U+1F601 are written alike |
| Utf8.EncodeChar | src/utils/jwt.ts:23 | one to four bytes: one exactly below U+0080, otherwise a lead byte and continuation bytes |
| Utf8.Encode | src/utils/jwt.ts:32 | between one and four bytes per code point |
| Utf8.CharRoundTrip | src/utils/jwt.ts:23 | the lead byte announces the sequence length and the bytes combine back to the code point |
| Utf8.RoundTrip | src/utils/jwt.ts:20-32 | UTF-8 decoding inverts the encoder |
| Utf8.Injective | src/utils/jwt.ts:23 | different secrets give different key bytes |
| Utf8.EncodeAscii | src/utils/jwt.ts:32 | ASCII text encodes byte for byte |
| Utf8.EncodeEmpty | src/utils/jwt.ts:21-27 | only the empty secret gives an empty key |
| Json.KeyIndex | src/utils/jwt.ts:52-53 | the position of the property with that key, or -1 exactly when there is none |
| Json.Lookup | src/utils/jwt.ts:52-53 | a property read: definition; meaning in `Json.LookupMeaning` |
| Json.Put | src/utils/jwt.ts:52-53 | a property assignment: definition; meaning in `Json.PutMeaning` |
| Json.LookupMeaning | src/utils/jwt.ts:52-53 | a property read finds the value of the one property with that key, and nothing otherwise |
| Json.PutMeaning | src/utils/jwt.ts:52-53 | after assignment the key reads as the new value, other keys as before; an existing key keeps its place, a new key goes last |
| Json.Decimal | src/utils/jwt.ts:57 | a number is written with decimal digits and no leading zero |
| Json.Stringify | src/utils/jwt.ts:56-57 | `JSON.stringify` of a flat object, with no white space: definition; meaning in `Json.ParseStringify` and `Json.StringifyBinary` |
| Json.StringifyBinary | src/utils/jwt.ts:56-57 | the JSON text is a binary string exactly when every key and string value is |
| Json.ParseNumberText | src/utils/jwt.ts:75 | `JSON.parse` reads back the integer `JSON.stringify` writes |
| Json.ParseCharsEscape | src/utils/jwt.ts:75 | a string's escaped characters read back up to the closing quote |
| Json.UnicodeEscape | src/utils/jwt.ts:74-75 | the `\u` escape of a code unit is `u` and four digits that read back as that unit |
| Json.UnescapePair | src/utils/jwt.ts:74-75 | a character above U+FFFF escaped as its two surrogates, as other issuers write it, reads back as that one character |
| Json.UnescapePairExample | src/utils/jwt.ts:74-75 | `\ud83d\ude00` reads as U+1F600, and a lone `\ud83d` is refused |
| Json.ParseScalar | src/utils/jwt.ts:75 | every string, integer and boolean value reads back from its text |
| Json.ParseMembersText | src/utils/jwt.ts:75 | the members from any position on read back onto the ones before them |
| Json.ParseStringify | src/utils/jwt.ts:56-75 | `JSON.parse` inverts `JSON.stringify` on every modelled object |
| Json.Parse | src/utils/jwt.ts:74-75 | `JSON.parse` restricted to flat objects of strings, integers and booleans: definition; meaning in `Json.ParseStringify`. On JSON outside that subset (null, arrays, nested objects, fractions, exponents, top-level non-objects) it gives None, so `Jwt.DecodeJwt` returns null where `decodeJWT` would return the parsed value |
| Json.SkipSpace | src/utils/jwt.ts:74 | the rest starts with no JSON white space and is no longer |
| Json.ParseNatural | src/utils/jwt.ts:75 | a parsed natural number is non-negative and consumes input |
| Jwt.Base64UrlEncode | src/utils/jwt.ts:3-6 | defined exactly for binary strings (`btoa` throws otherwise); the output contains no '.' |
| Jwt.Base64UrlDecoding | src/utils/jwt.ts:8-14 | a decoded text is a binary string |
| Jwt.Base64UrlDecode | src/utils/jwt.ts:8-14 | the method with the padding loop computes the closed form |
| Jwt.Base64UrlAgrees | src/utils/jwt.ts:3-14 | the two helpers compute what `encodeBase64Url` and `decodeBase64Url` compute, throwing where those return the sentinel |
| Jwt.Base64UrlRoundTrip | src/utils/jwt.ts:3-14 | `base64UrlDecode` inverts `base64UrlEncode` on every binary string |
| Jwt.TagText | src/utils/jwt.ts:35-37 | the signature segment is what `base64UrlEncode` gives the tag's characters; it contains no '.' |
| Jwt.TagTextInjective | src/utils/jwt.ts:35-37 | different tags give different signature segments |
| Jwt.TagTextLength | src/utils/jwt.ts:35-37 | a 32-byte tag is written as 43 characters |
| Jwt.GenerateSignature | src/utils/jwt.ts:16-38 | rejects exactly for the empty secret; otherwise the segment of the HMAC of the UTF-8 data under the UTF-8 secret |
| Jwt.CreateJwt | src/utils/jwt.ts:40-63 | the method assigning the claims in place computes the token the closed form describes |
| Jwt.FinalPayload | src/utils/jwt.ts:50-54 | the payload copy with exp then iat assigned when the lifetime is truthy: definition; meaning in `Jwt.FinalPayloadClaims` and `Jwt.ExpiryGap` |
| Jwt.SigningInput | src/utils/jwt.ts:56-58 | the encoded header and payload joined by '.': definition; meaning in `Jwt.SigningInputFails` and `Jwt.TokenParts` |
| Jwt.Token | src/utils/jwt.ts:40-63 | the token `createJWT` resolves to: definition; `Jwt.CreateJwt` is proved equal to it, and `Jwt.TokenFails`, `Jwt.TokenParts`, `Jwt.VerifyCreated` and `Jwt.DecodeCreated` state its meaning |
| Jwt.FinalPayloadClaims | src/utils/jwt.ts:50-54 | without a truthy lifetime the payload is signed as given; with one, exp and iat read as the clock seconds and nothing else changes |
| Jwt.ExpiryGap | src/utils/jwt.ts:50-54 | the exp clock is read first, as at lines 52-53; then the signed payload's numeric exp and iat claims differ by the lifetime when both readings fall in one second, and never by more |
| Jwt.FinalPayloadLatin1 | src/utils/jwt.ts:50-57 | the added claims never make `btoa` throw |
| Jwt.PutLatin1 | src/utils/jwt.ts:52-53 | assigning a binary key a non-string value keeps the text binary |
| Jwt.HeaderLatin1 | src/utils/jwt.ts:45-56 | the header is binary, so its segment always exists |
| Jwt.SigningInputFails | src/utils/jwt.ts:56-58 | the signing input exists exactly when the final payload is binary |
| Jwt.TokenFails | src/utils/jwt.ts:40-63 | `createJWT` rejects exactly when the secret is empty or the payload text has a code above 255 |
| Jwt.TokenParts | src/utils/jwt.ts:56-62 | a created token is header, payload and signature joined by '.', and splits back into exactly those three |
| Jwt.VerifyCreated | src/utils/jwt.ts:84-96 | `verifyJWT` accepts every created token under its secret |
| Jwt.SegmentRoundTrip | src/utils/jwt.ts:56-75 | a binary object's segment decodes and parses back to the object |
| Jwt.DecodeParts | src/utils/jwt.ts:65-82 | three segments that decode and parse give exactly that header, payload and signature |
| Jwt.DecodeCreated | src/utils/jwt.ts:65-82 | `decodeJWT` of a created token gives the header and the signed payload |
| Jwt.VerifyOtherSecret | src/utils/jwt.ts:84-96 | a created token fails under an empty secret or one whose key gives the signing input another tag |
| Jwt.VerifyTampered | src/utils/jwt.ts:84-96 | changed header or payload segments fail under the signing secret whenever the HMAC tells the inputs apart |
| Jwt.WrongPartCount | src/utils/jwt.ts:71-87 | anything but three parts is refused by both `decodeJWT` and `verifyJWT` |
| Jwt.DecodeBadSegment | src/utils/jwt.ts:74-80 | a segment that does not decode or parse makes `decodeJWT` return null |
| Jwt.DecodeJwt | src/utils/jwt.ts:65-82 | a result means three parts, and its signature is the third part |
| Jwt.VerifyJwt | src/utils/jwt.ts:84-96 | acceptance means three parts and a non-empty secret |

## Left out

- I/O and asynchrony: the promises of `crypto.subtle` are modelled as plain values.
- Not modelled: HMAC-SHA-256 itself. `mac` is an arbitrary function, so the lemmas about wrong secrets and tampered tokens take the needed tag difference as a hypothesis.
- Not modelled: `TextDecoder`. The source does not use one: `decodeJWT` hands the binary string from `atob` straight to `JSON.parse`.
- Jwt.VerifyJwt: the comparison is plain string equality, as in the source; timing is not modelled.
- Json.Parse: accepts only flat objects whose values are strings, integers or booleans. `null`, arrays, nested objects, fractions and exponents, and top-level values other than objects all count as failures, though `JSON.parse` accepts them. `JSON.parse` output is not validated against `JWTHeader` or `JWTPayload` in the source either.
- Json.Stringify: numbers are integers written in decimal. Not modelled: IEEE doubles, fractional lifetimes, `NaN`, and the exponent notation numbers from 10^21 up get.
- Json.Put: property order is insertion order. Not modelled: JavaScript's rule that integer-like keys such as "1" enumerate first.
- Json.Unescape: an escaped surrogate pair such as `\ud83d\ude00` reads as the one character it encodes, as in `JSON.parse`. An escape of a lone surrogate, which `JSON.parse` accepts, makes the parse fail here: Dafny strings hold only scalar values.
- Jwt.FinalPayload: `expiresIn` is an integer or absent. The falsy values modelled are absence and 0; `NaN` is not modelled.
- Js.Utf16: a Dafny `char` is a Unicode scalar value, so strings holding lone surrogates, which JavaScript allows, are not modelled.
- Encoding: the inputs of `encodeBase64`, `encodeBase64Url` and `encodeBase32` are binary strings, which is what `btoa` and `padStart(8, '0')` handle. `btoa` throwing on a code above 255 is modelled only in `Jwt.Base64UrlEncode`. In `encodeBase64` and `encodeBase64Url` that exception escapes to the caller.
- Encoding.UpperChar: `toUpperCase` is modelled for ASCII and for the few non-ASCII characters whose upper case falls inside A-Z. Every other character fails decoding whatever its case.
- Not modelled: the React components that call these functions.

## Findings

| source | as written | input that shows it | evidently intended | confidence | as-written member | corrected member |
|---|---|---|---|---|---|---|
| src/utils/encoding.ts:90-92 | `parseInt(hex.substr(i, 2), 16)` accepts a sign, or a digit followed by any other character, and `String.fromCharCode` wraps a negative value | "-1" decodes to U+FFFF and "4g" to U+0004 instead of giving 'Invalid Hex string' | only pairs of two hexadecimal digits decode; anything else gives the sentinel | not executed | Encoding.HexDecodingLenient | Encoding.HexDecodingStrict |
