/** The token functions of src/utils/jwt.ts: HS256 tokens made of a
    Base64URL header, a Base64URL payload and a Base64URL HMAC tag, joined
    with '.'.

    crypto.subtle is outside the model: the HMAC-SHA-256 computation is a
    parameter, a function from key bytes and message bytes to tag bytes.
    The promise rejections and caught exceptions of the source become None
    (createJWT, decodeJWT) and false (verifyJWT). */
module Jwt {
  import opened Wrappers
  import opened Binary
  import opened Strings
  import Base64
  import Encoding
  import Json
  import Utf8

  /** crypto.subtle.sign('HMAC', key, data) for a SHA-256 HMAC key. */
  type Mac = (Bytes, Bytes) -> Bytes

  // ------------------------------------------------------------ Base64URL

  /** base64UrlEncode: btoa, which throws on a code above 255, then the
      URL-safe substitutions and no padding. */
  function Base64UrlEncode(str: string): (r: Option<string>)
    ensures r.Some? <==> IsBinary(str)
    ensures r.Some? ==> '.' !in r.value
  {
    if IsBinary(str) then
      var b := ToBytes(str);
      Base64.ToUrlAlphabet(b);
      Some(Base64.ToUrl(Base64.Encode(b)))
    else None
  }

  /** What base64UrlDecode computes: the substitutions undone, '=' appended
      up to a multiple of four, then atob; None where atob throws. */
  function Base64UrlDecoding(str: string): (r: Option<string>)
    ensures r.Some? ==> IsBinary(r.value)
  {
    var b := Base64.Decode(Base64.PadTo4(Base64.FromUrl(str)));
    if b.None? then None else Some(FromBytes(b.value))
  }

  /** base64UrlDecode, with its padding loop. */
  method Base64UrlDecode(str: string) returns (r: Option<string>)
    ensures r == Base64UrlDecoding(str)
  {
    var base64 := Replace(Replace(str, '-', '+'), '_', '/');
    ghost var unpadded := base64;
    while |base64| % 4 != 0
      invariant |unpadded| <= |base64| <= |Base64.PadTo4(unpadded)|
      invariant base64 == Base64.PadTo4(unpadded)[..|base64|]
      decreases |Base64.PadTo4(unpadded)| - |base64|
    {
      base64 := base64 + "=";
    }
    assert base64 == Base64.PadTo4(unpadded);
    var b := Base64.Decode(base64);
    if b.None? {
      r := None;
    } else {
      r := Some(FromBytes(b.value));
    }
  }

  /** The two helpers of jwt.ts compute what encodeBase64Url and
      decodeBase64Url of encoding.ts compute, throwing where those return
      the sentinel. */
  lemma Base64UrlAgrees(str: string)
    ensures IsBinary(str) ==> Base64UrlEncode(str) == Some(Encoding.EncodeBase64Url(ToBytes(str)))
    ensures Base64UrlDecoding(str) ==
      match Encoding.Base64UrlDecoding(str)
      case Success(b) => Some(FromBytes(b))
      case Failure(_) => None
  {
  }

  /** base64UrlDecode inverts base64UrlEncode on every string btoa accepts. */
  lemma Base64UrlRoundTrip(str: string)
    requires IsBinary(str)
    ensures Base64UrlDecoding(Base64UrlEncode(str).value) == Some(str)
  {
    Base64.UrlRoundTrip(ToBytes(str));
    StringRoundTrip(str);
  }

  // ------------------------------------------------------------ signature

  /** The signature segment of a tag: String.fromCharCode over its bytes,
      then base64UrlEncode, which cannot throw on such a string. */
  function TagText(tag: Bytes): (s: string)
    ensures Base64UrlEncode(FromBytes(tag)) == Some(s)
    ensures '.' !in s
  {
    BytesRoundTrip(tag);
    Base64.ToUrlAlphabet(tag);
    Base64.ToUrl(Base64.Encode(tag))
  }

  /** Different tags give different signature segments. */
  lemma TagTextInjective(t1: Bytes, t2: Bytes)
    requires TagText(t1) == TagText(t2)
    ensures t1 == t2
  {
    Base64.UrlRoundTrip(t1);
    Base64.UrlRoundTrip(t2);
  }

  /** A 32-byte HMAC-SHA-256 tag is written as 43 characters. */
  lemma TagTextLength(tag: Bytes)
    requires |tag| == 32
    ensures |TagText(tag)| == 43
  {
    Base64.ToUrlEncode(tag);
  }

  /** generateSignature: the secret and the data encoded as UTF-8, the
      HMAC of the data under the secret as key, written by TagText. None
      where importKey rejects the key: HMAC refuses a key of no bits, so
      an empty secret makes the promise reject. */
  function GenerateSignature(mac: Mac, data: string, secret: string): (r: Option<string>)
    ensures r.None? <==> secret == ""
    ensures r.Some? ==> r.value == TagText(mac(Utf8.Encode(secret), Utf8.Encode(data)))
  {
    var key := Utf8.Encode(secret);
    if key == [] then
      Utf8.EncodeEmpty(secret);
      None
    else
      Utf8.EncodeEmpty(secret);
      var tag := mac(key, Utf8.Encode(data));
      var sig := Base64UrlEncode(FromBytes(tag));
      BytesRoundTrip(tag);
      sig
  }

  // --------------------------------------------------------------- create

  /** The header every token carries, in its literal's order. */
  const Header: Json.Object := [("alg", Json.Str("HS256")), ("typ", Json.Str("JWT"))]

  /** `if (expiresIn)`: an absent or zero lifetime adds no claims. */
  predicate Truthy(expiresIn: Option<int>)
  {
    expiresIn.Some? && expiresIn.value != 0
  }

  /** The payload createJWT signs: a copy of the caller's, with exp and
      then iat assigned when a lifetime is given. clock1 and clock2 are the
      two readings of Date.now(), in milliseconds, and Math.floor of
      their seconds is Dafny's division by 1000. */
  function FinalPayload(payload: Json.Object, expiresIn: Option<int>, clock1: int, clock2: int): Json.Object
  {
    if Truthy(expiresIn) then
      var withExp := Json.Put(payload, "exp", Json.Num(clock1 / 1000 + expiresIn.value));
      Json.Put(withExp, "iat", Json.Num(clock2 / 1000))
    else payload
  }

  /** The text the signature covers: the encoded header and the encoded
      payload joined by '.', or None where btoa throws on a payload text
      with a code above 255. */
  function SigningInput(payload: Json.Object, expiresIn: Option<int>, clock1: int, clock2: int): Option<string>
  {
    var h := Base64UrlEncode(Json.Stringify(Header));
    var p := Base64UrlEncode(Json.Stringify(FinalPayload(payload, expiresIn, clock1, clock2)));
    if h.None? || p.None? then None else Some(h.value + "." + p.value)
  }

  /** The token createJWT resolves to, or None where it rejects: btoa
      throws on a payload text with a code above 255, importKey on an empty
      secret. */
  function Token(mac: Mac, payload: Json.Object, secret: string, expiresIn: Option<int>, clock1: int, clock2: int): Option<string>
  {
    var data := SigningInput(payload, expiresIn, clock1, clock2);
    if data.None? then None
    else
      var sig := GenerateSignature(mac, data.value, secret);
      if sig.None? then None else Some(data.value + "." + sig.value)
  }

  /** createJWT, assigning the claims onto its copy of the payload. */
  method CreateJwt(mac: Mac, payload: Json.Object, secret: string, expiresIn: Option<int>, clock1: int, clock2: int)
    returns (r: Option<string>)
    ensures r == Token(mac, payload, secret, expiresIn, clock1, clock2)
  {
    var finalPayload := payload;
    if expiresIn.Some? && expiresIn.value != 0 {
      finalPayload := Json.Put(finalPayload, "exp", Json.Num(clock1 / 1000 + expiresIn.value));
      finalPayload := Json.Put(finalPayload, "iat", Json.Num(clock2 / 1000));
    }
    assert finalPayload == FinalPayload(payload, expiresIn, clock1, clock2);
    var encodedHeader := Base64UrlEncode(Json.Stringify(Header));
    var encodedPayload := Base64UrlEncode(Json.Stringify(finalPayload));
    if encodedHeader.None? || encodedPayload.None? {
      assert SigningInput(payload, expiresIn, clock1, clock2).None?;
      r := None;
      return;
    }
    var data := encodedHeader.value + "." + encodedPayload.value;
    assert SigningInput(payload, expiresIn, clock1, clock2) == Some(data);
    var signature := GenerateSignature(mac, data, secret);
    if signature.None? {
      r := None;
    } else {
      r := Some(data + "." + signature.value);
    }
  }

  // --------------------------------------------------------------- decode

  datatype Decoded = Decoded(header: Json.Object, payload: Json.Object, signature: string)

  /** decodeJWT: three '.'-separated parts, the first two Base64URL text of
      JSON; None where it returns null. Nothing is checked against the
      signature. */
  function DecodeJwt(token: string): (r: Option<Decoded>)
    ensures r.Some? ==> |Split(token, '.')| == 3 && r.value.signature == Split(token, '.')[2]
  {
    var parts := Split(token, '.');
    if |parts| != 3 then None
    else
      var h := Base64UrlDecoding(parts[0]);
      var p := Base64UrlDecoding(parts[1]);
      if h.None? then None
      else
        var header := Json.Parse(h.value);
        if header.None? || p.None? then None
        else
          var body := Json.Parse(p.value);
          if body.None? then None else Some(Decoded(header.value, body.value, parts[2]))
  }

  /** verifyJWT: the signature recomputed over the first two parts under
      the secret and compared with the third; false for any other number
      of parts and where generateSignature rejects. */
  function VerifyJwt(mac: Mac, token: string, secret: string): (r: bool)
    ensures r ==> |Split(token, '.')| == 3 && secret != ""
  {
    var parts := Split(token, '.');
    if |parts| != 3 then false
    else
      var expected := GenerateSignature(mac, parts[0] + "." + parts[1], secret);
      expected.Some? && expected.value == parts[2]
  }

  // ------------------------------------------------------------- lemmas

  /** Without a lifetime the payload is signed as given; with one, exp and
      iat read as the two clock seconds (exp offset by the lifetime) and
      every other claim reads as before. */
  lemma FinalPayloadClaims(payload: Json.Object, expiresIn: Option<int>, clock1: int, clock2: int)
    ensures !Truthy(expiresIn) ==> FinalPayload(payload, expiresIn, clock1, clock2) == payload
    ensures Truthy(expiresIn) ==>
      var f := FinalPayload(payload, expiresIn, clock1, clock2);
      Json.Lookup(f, "exp") == Some(Json.Num(clock1 / 1000 + expiresIn.value)) &&
      Json.Lookup(f, "iat") == Some(Json.Num(clock2 / 1000)) &&
      forall k :: k != "exp" && k != "iat" ==> Json.Lookup(f, k) == Json.Lookup(payload, k)
  {
    if Truthy(expiresIn) {
      var v1, v2 := Json.Num(clock1 / 1000 + expiresIn.value), Json.Num(clock2 / 1000);
      FinalPayloadPuts(payload, expiresIn, clock1, clock2);
      ClaimKeys();
      PutTwice(payload, "exp", v1, "iat", v2);
    }
  }

  lemma FinalPayloadPuts(payload: Json.Object, expiresIn: Option<int>, clock1: int, clock2: int)
    requires Truthy(expiresIn)
    ensures FinalPayload(payload, expiresIn, clock1, clock2) ==
      Json.Put(Json.Put(payload, "exp", Json.Num(clock1 / 1000 + expiresIn.value)), "iat", Json.Num(clock2 / 1000))
  {
  }

  /** The two claim names are binary and differ. */
  lemma ClaimKeys()
    ensures IsBinary("exp") && IsBinary("iat") && "exp" != "iat"
  {
    assert "exp"[0] != "iat"[0];
  }

  /** Two assignments to different keys both read back, and leave every
      other key as it was. */
  lemma PutTwice(o: Json.Object, k1: string, v1: Json.Scalar, k2: string, v2: Json.Scalar)
    requires k1 != k2
    ensures var f := Json.Put(Json.Put(o, k1, v1), k2, v2);
      Json.Lookup(f, k1) == Some(v1) && Json.Lookup(f, k2) == Some(v2) &&
      forall k :: k != k1 && k != k2 ==> Json.Lookup(f, k) == Json.Lookup(o, k)
  {
    Json.PutMeaning(o, k1, v1);
    Json.PutMeaning(Json.Put(o, k1, v1), k2, v2);
  }

  /** With a truthy lifetime e, the payload createJWT signs carries numeric
      exp and iat claims whose difference is e when both clock readings fall
      in the same second; a second boundary crossed between the readings
      makes the gap smaller, never larger. */
  lemma ExpiryGap(payload: Json.Object, e: int, clock1: int, clock2: int)
    requires e != 0 && clock1 <= clock2
    ensures var f := FinalPayload(payload, Some(e), clock1, clock2);
      var exp, iat := Json.Lookup(f, "exp"), Json.Lookup(f, "iat");
      exp.Some? && exp.value.Num? && iat.Some? && iat.value.Num? &&
      exp.value.n - iat.value.n <= e &&
      (clock1 / 1000 == clock2 / 1000 ==> exp.value.n - iat.value.n == e)
  {
    FinalPayloadClaims(payload, Some(e), clock1, clock2);
  }

  /** The claims createJWT adds are ASCII, so they never make btoa throw. */
  lemma FinalPayloadLatin1(payload: Json.Object, expiresIn: Option<int>, clock1: int, clock2: int)
    requires Json.Latin1(payload)
    ensures Json.Latin1(FinalPayload(payload, expiresIn, clock1, clock2))
  {
    if Truthy(expiresIn) {
      var v1, v2 := Json.Num(clock1 / 1000 + expiresIn.value), Json.Num(clock2 / 1000);
      FinalPayloadPuts(payload, expiresIn, clock1, clock2);
      ClaimKeys();
      PutTwiceLatin1(payload, "exp", v1, "iat", v2);
    }
  }

  lemma PutTwiceLatin1(o: Json.Object, k1: string, v1: Json.Scalar, k2: string, v2: Json.Scalar)
    requires Json.Latin1(o) && IsBinary(k1) && !v1.Str? && IsBinary(k2) && !v2.Str?
    ensures Json.Latin1(Json.Put(Json.Put(o, k1, v1), k2, v2))
  {
    PutLatin1(o, k1, v1);
    PutLatin1(Json.Put(o, k1, v1), k2, v2);
  }

  /** Assigning a binary key a value that is no string keeps every code
      of the object's text below 256. */
  lemma PutLatin1(o: Json.Object, k: string, v: Json.Scalar)
    requires Json.Latin1(o) && IsBinary(k) && !v.Str?
    ensures Json.Latin1(Json.Put(o, k, v))
  {
    var r := Json.Put(o, k, v);
    var i := Json.KeyIndex(o, k);
    forall j | 0 <= j < |r| ensures IsBinary(r[j].0) && (r[j].1.Str? ==> IsBinary(r[j].1.s)) {
      if j == i || j == |o| {
        assert r[j] == (k, v);
      } else {
        assert r[j] == o[j];
      }
    }
  }

  /** The header text is binary, so its segment never makes btoa throw. */
  lemma HeaderLatin1()
    ensures Json.Latin1(Header)
    ensures Base64UrlEncode(Json.Stringify(Header)).Some?
  {
    assert IsBinary("alg") && IsBinary("HS256") && IsBinary("typ") && IsBinary("JWT");
    assert Json.Latin1(Header);
    Json.StringifyBinary(Header);
  }

  /** The signing input exists exactly when the payload text is binary. */
  lemma SigningInputFails(payload: Json.Object, expiresIn: Option<int>, clock1: int, clock2: int)
    ensures SigningInput(payload, expiresIn, clock1, clock2).None? <==>
      !Json.Latin1(FinalPayload(payload, expiresIn, clock1, clock2))
  {
    HeaderLatin1();
    Json.StringifyBinary(FinalPayload(payload, expiresIn, clock1, clock2));
  }

  /** createJWT rejects exactly when the secret is empty or the payload
      text has a code above 255. */
  lemma TokenFails(mac: Mac, payload: Json.Object, secret: string, expiresIn: Option<int>, clock1: int, clock2: int)
    ensures Token(mac, payload, secret, expiresIn, clock1, clock2).None? <==>
      secret == "" || !Json.Latin1(FinalPayload(payload, expiresIn, clock1, clock2))
  {
    SigningInputFails(payload, expiresIn, clock1, clock2);
  }

  /** A created token is the two encoded JSON texts and the signature over
      them, and splits back into exactly those three parts. */
  lemma TokenParts(mac: Mac, payload: Json.Object, secret: string, expiresIn: Option<int>, clock1: int, clock2: int)
    requires Token(mac, payload, secret, expiresIn, clock1, clock2).Some?
    ensures var f := FinalPayload(payload, expiresIn, clock1, clock2);
      var h := Base64UrlEncode(Json.Stringify(Header)).value;
      var p := Base64UrlEncode(Json.Stringify(f)).value;
      var s := TagText(mac(Utf8.Encode(secret), Utf8.Encode(h + "." + p)));
      SigningInput(payload, expiresIn, clock1, clock2) == Some(h + "." + p) &&
      Token(mac, payload, secret, expiresIn, clock1, clock2).value == h + "." + p + "." + s &&
      Split(h + "." + p + "." + s, '.') == [h, p, s]
  {
    var f := FinalPayload(payload, expiresIn, clock1, clock2);
    var h := Base64UrlEncode(Json.Stringify(Header)).value;
    var p := Base64UrlEncode(Json.Stringify(f)).value;
    var s := TagText(mac(Utf8.Encode(secret), Utf8.Encode(h + "." + p)));
    SplitThree(h, p, s, '.');
  }

  /** verifyJWT accepts every token createJWT makes, under the same secret. */
  lemma VerifyCreated(mac: Mac, payload: Json.Object, secret: string, expiresIn: Option<int>, clock1: int, clock2: int)
    requires Token(mac, payload, secret, expiresIn, clock1, clock2).Some?
    ensures VerifyJwt(mac, Token(mac, payload, secret, expiresIn, clock1, clock2).value, secret)
  {
    TokenParts(mac, payload, secret, expiresIn, clock1, clock2);
  }

  /** The segment of a binary object decodes and parses back to it. */
  lemma SegmentRoundTrip(o: Json.Object)
    requires Json.Latin1(o)
    ensures Base64UrlEncode(Json.Stringify(o)).Some?
    ensures var text := Base64UrlDecoding(Base64UrlEncode(Json.Stringify(o)).value);
      text == Some(Json.Stringify(o)) && Json.Parse(text.value) == Some(o)
  {
    Json.StringifyBinary(o);
    Base64UrlRoundTrip(Json.Stringify(o));
    Json.ParseStringify(o);
  }

  /** decodeJWT of three segments that decode and parse. */
  lemma DecodeParts(h: string, p: string, s: string, header: Json.Object, body: Json.Object)
    requires '.' !in h && '.' !in p && '.' !in s
    requires Base64UrlDecoding(h).Some? && Json.Parse(Base64UrlDecoding(h).value) == Some(header)
    requires Base64UrlDecoding(p).Some? && Json.Parse(Base64UrlDecoding(p).value) == Some(body)
    ensures DecodeJwt(h + "." + p + "." + s) == Some(Decoded(header, body, s))
  {
    SplitThree(h, p, s, '.');
  }

  /** decodeJWT of a created token gives back the header, the payload that
      was signed and the signature. */
  lemma DecodeCreated(mac: Mac, payload: Json.Object, secret: string, expiresIn: Option<int>, clock1: int, clock2: int)
    requires Token(mac, payload, secret, expiresIn, clock1, clock2).Some?
    ensures var f := FinalPayload(payload, expiresIn, clock1, clock2);
      var t := Token(mac, payload, secret, expiresIn, clock1, clock2).value;
      DecodeJwt(t).Some? && DecodeJwt(t).value.header == Header && DecodeJwt(t).value.payload == f
  {
    var f := FinalPayload(payload, expiresIn, clock1, clock2);
    TokenParts(mac, payload, secret, expiresIn, clock1, clock2);
    TokenFails(mac, payload, secret, expiresIn, clock1, clock2);
    HeaderLatin1();
    SegmentRoundTrip(Header);
    SegmentRoundTrip(f);
    var h := Base64UrlEncode(Json.Stringify(Header)).value;
    var p := Base64UrlEncode(Json.Stringify(f)).value;
    var s := TagText(mac(Utf8.Encode(secret), Utf8.Encode(h + "." + p)));
    DecodeParts(h, p, s, Header, f);
  }

  /** A created token fails verification under a secret whose key gives
      the signing input a different HMAC tag, and under an empty secret. */
  lemma VerifyOtherSecret(mac: Mac, payload: Json.Object, secret: string, other: string, expiresIn: Option<int>, clock1: int, clock2: int)
    requires Token(mac, payload, secret, expiresIn, clock1, clock2).Some?
    requires var data := Utf8.Encode(SigningInput(payload, expiresIn, clock1, clock2).value);
      other == "" || mac(Utf8.Encode(other), data) != mac(Utf8.Encode(secret), data)
    ensures !VerifyJwt(mac, Token(mac, payload, secret, expiresIn, clock1, clock2).value, other)
  {
    TokenParts(mac, payload, secret, expiresIn, clock1, clock2);
    var t := Token(mac, payload, secret, expiresIn, clock1, clock2).value;
    var data := Utf8.Encode(SigningInput(payload, expiresIn, clock1, clock2).value);
    if other != "" && VerifyJwt(mac, t, other) {
      TagTextInjective(mac(Utf8.Encode(other), data), mac(Utf8.Encode(secret), data));
    }
  }

  /** A token whose first two parts were changed fails verification under
      the signing secret whenever the HMAC tells the new signing input
      from the old. */
  lemma VerifyTampered(mac: Mac, secret: string, h: string, p: string, h2: string, p2: string)
    requires '.' !in h && '.' !in p && '.' !in h2 && '.' !in p2 && secret != ""
    requires var key := Utf8.Encode(secret);
      mac(key, Utf8.Encode(h2 + "." + p2)) != mac(key, Utf8.Encode(h + "." + p))
    ensures var s := GenerateSignature(mac, h + "." + p, secret).value;
      !VerifyJwt(mac, h2 + "." + p2 + "." + s, secret)
  {
    var key := Utf8.Encode(secret);
    var s := GenerateSignature(mac, h + "." + p, secret).value;
    SplitThree(h2, p2, s, '.');
    if VerifyJwt(mac, h2 + "." + p2 + "." + s, secret) {
      TagTextInjective(mac(key, Utf8.Encode(h2 + "." + p2)), mac(key, Utf8.Encode(h + "." + p)));
    }
  }

  /** decodeJWT and verifyJWT refuse any text that is not three parts. */
  lemma WrongPartCount(mac: Mac, token: string, secret: string)
    requires |Split(token, '.')| != 3
    ensures DecodeJwt(token).None? && !VerifyJwt(mac, token, secret)
  {
  }

  /** decodeJWT refuses a token whose header or payload segment is not
      Base64URL text or does not read as JSON. */
  lemma DecodeBadSegment(token: string)
    requires |Split(token, '.')| == 3
    requires var parts := Split(token, '.');
      Base64UrlDecoding(parts[0]).None? || Base64UrlDecoding(parts[1]).None? ||
      Json.Parse(Base64UrlDecoding(parts[0]).value).None? ||
      Json.Parse(Base64UrlDecoding(parts[1]).value).None?
    ensures DecodeJwt(token).None?
  {
  }
}
