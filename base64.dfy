/** Base64 as the browser's btoa and atob compute it: the encoding of
    section 4 of RFC 4648 (padded with '='), and the WHATWG HTML standard's
    "forgiving-base64 decode", which is what atob runs. Also the URL-safe
    alphabet of section 5 of RFC 4648 as encoding.ts and jwt.ts derive it
    with regular-expression replacements. */
module Base64 {
  import opened Wrappers
  import opened Binary
  import opened Strings

  const Upper: string := "ABCDEFGHIJKLMNOPQRSTUVWXYZ"
  const Lower: string := "abcdefghijklmnopqrstuvwxyz"
  const Decimals: string := "0123456789"

  /** The 64-character alphabet of RFC 4648, Table 1, in value order. */
  const Alphabet: string := Upper + Lower + Decimals + "+/"

  /** The character for the 6-bit value v. */
  function Digit(v: nat): (c: char)
    requires v < 64
  {
    if v < 26 then ('A' as int + v) as char
    else if v < 52 then ('a' as int + v - 26) as char
    else if v < 62 then ('0' as int + v - 52) as char
    else if v == 62 then '+'
    else '/'
  }

  /** The 6-bit value of an alphabet character, or -1 for any other character. */
  function Value(c: char): (v: int)
    ensures -1 <= v < 64
  {
    if 'A' <= c <= 'Z' then c as int - 'A' as int
    else if 'a' <= c <= 'z' then c as int - 'a' as int + 26
    else if '0' <= c <= '9' then c as int - '0' as int + 52
    else if c == '+' then 62
    else if c == '/' then 63
    else -1
  }

  lemma UpperTable()
    ensures forall i :: 0 <= i < 26 ==> Upper[i] as int == 'A' as int + i
  {
  }

  lemma LowerTable()
    ensures forall i :: 0 <= i < 26 ==> Lower[i] as int == 'a' as int + i
  {
  }

  lemma DecimalsTable()
    ensures forall i :: 0 <= i < 10 ==> Decimals[i] as int == '0' as int + i
  {
  }

  /** Digit is the RFC's table. */
  lemma AlphabetTable(v: nat)
    requires v < 64
    ensures Alphabet[v] == Digit(v)
  {
    UpperTable(); LowerTable(); DecimalsTable();
    if v < 26 { assert Alphabet[v] == Upper[v]; }
    else if v < 52 { assert Alphabet[v] == Lower[v - 26]; }
    else if v < 62 { assert Alphabet[v] == Decimals[v - 52]; }
  }

  /** Value reads back what Digit writes. */
  lemma DigitValue(v: nat)
    requires v < 64
    ensures Value(Digit(v)) == v
  {
  }

  predicate AllDigits(s: string)
  {
    forall i :: 0 <= i < |s| ==> Value(s[i]) >= 0
  }

  /** The four characters for three bytes: their 24 bits cut into four 6-bit values. */
  function Quad(x: Byte, y: Byte, z: Byte): (s: string)
    ensures |s| == 4 && AllDigits(s)
    ensures Value(s[0]) == x / 4 && Value(s[1]) == x % 4 * 16 + y / 16
    ensures Value(s[2]) == y % 16 * 4 + z / 64 && Value(s[3]) == z % 64
  {
    DigitValue(x / 4); DigitValue(x % 4 * 16 + y / 16);
    DigitValue(y % 16 * 4 + z / 64); DigitValue(z % 64);
    [Digit(x / 4), Digit(x % 4 * 16 + y / 16), Digit(y % 16 * 4 + z / 64), Digit(z % 64)]
  }

  /** The three bytes whose bits four 6-bit values hold. */
  function Triple(v0: int, v1: int, v2: int, v3: int): (b: Bytes)
    requires 0 <= v0 < 64 && 0 <= v1 < 64 && 0 <= v2 < 64 && 0 <= v3 < 64
    ensures |b| == 3
  {
    [v0 * 4 + v1 / 16, v1 % 16 * 16 + v2 / 4, v2 % 4 * 64 + v3]
  }

  /** One group of four characters decodes to the three bytes it encodes. */
  lemma TripleQuad(x: Byte, y: Byte, z: Byte)
    ensures var q := Quad(x, y, z);
      Triple(Value(q[0]), Value(q[1]), Value(q[2]), Value(q[3])) == [x, y, z]
  {
    var q := Quad(x, y, z);
    var a, b, c, d, e, f := x / 4, x % 4, y / 16, y % 16, z / 64, z % 64;
    assert x == a * 4 + b && y == c * 16 + d && z == e * 64 + f;
    var v0, v1, v2, v3 := Value(q[0]), Value(q[1]), Value(q[2]), Value(q[3]);
    assert v0 == a && v1 == b * 16 + c && v2 == d * 4 + e && v3 == f;
    SplitSixteen(b, c);
    SplitFour(d, e);
    var t := Triple(v0, v1, v2, v3);
    assert t[0] == a * 4 + b && t[1] == c * 16 + d && t[2] == e * 64 + f;
    assert t == [x, y, z];
  }

  lemma SplitSixteen(hi: int, lo: int)
    requires 0 <= lo < 16
    ensures (hi * 16 + lo) / 16 == hi && (hi * 16 + lo) % 16 == lo
  {
  }

  lemma SplitFour(hi: int, lo: int)
    requires 0 <= lo < 4
    ensures (hi * 4 + lo) / 4 == hi && (hi * 4 + lo) % 4 == lo
  {
  }

  /** The alphabet characters for the bytes, three bytes to four characters,
      a final group of one or two bytes written as two or three characters
      with the unused low bits zero; no padding. */
  function EncodeGroups(b: Bytes): (s: string)
    ensures |s| == (4 * |b| + 2) / 3
    ensures AllDigits(s)
    decreases |b|
  {
    if |b| == 0 then []
    else if |b| == 1 then Quad(b[0], 0, 0)[..2]
    else if |b| == 2 then Quad(b[0], b[1], 0)[..3]
    else Quad(b[0], b[1], b[2]) + EncodeGroups(b[3..])
  }

  /** The '=' characters that complete the last group of four. */
  function Padding(n: nat): string
  {
    Repeat('=', (3 - n % 3) % 3)
  }

  /** btoa on a binary string. */
  function Encode(b: Bytes): (s: string)
    ensures |s| == 4 * ((|b| + 2) / 3)
  {
    EncodedLength(|b|);
    EncodeGroups(b) + Padding(|b|)
  }

  lemma EncodedLength(n: nat)
    ensures (4 * n + 2) / 3 + (3 - n % 3) % 3 == 4 * ((n + 2) / 3)
  {
    var q, r := n / 3, n % 3;
    assert n == 3 * q + r;
    assert (4 * n + 2) / 3 == 4 * q + (4 * r + 2) / 3;
    assert (n + 2) / 3 == q + (r + 2) / 3;
  }

  /** ASCII whitespace in the sense of the WHATWG Infra standard. */
  predicate IsAsciiWhitespace(c: char)
  {
    c == ' ' || c == '\t' || c == '\n' || c == '\r' || c as int == 0x0C
  }

  function RemoveWhitespace(s: string): (r: string)
    ensures forall i :: 0 <= i < |r| ==> !IsAsciiWhitespace(r[i])
  {
    if s == [] then []
    else (if IsAsciiWhitespace(s[0]) then [] else [s[0]]) + RemoveWhitespace(s[1..])
  }

  /** Step 2 of forgiving-base64 decode: when the length is a multiple of
      four, one or two trailing '=' are dropped. */
  function Unpad(d: string): string
  {
    if |d| % 4 == 0 && |d| >= 2 && d[|d| - 1] == '=' && d[|d| - 2] == '=' then d[..|d| - 2]
    else if |d| % 4 == 0 && |d| >= 1 && d[|d| - 1] == '=' then d[..|d| - 1]
    else d
  }

  /** The bytes of a run of alphabet characters: every four characters give
      three bytes, a final two or three characters give one or two bytes, and
      the left-over low bits are discarded whatever they are. */
  function DecodeGroups(d: string): (b: Bytes)
    requires AllDigits(d) && |d| % 4 != 1
    ensures |b| == 3 * |d| / 4
    decreases |d|
  {
    if |d| == 0 then []
    else if |d| == 2 then Triple(Value(d[0]), Value(d[1]), 0, 0)[..1]
    else if |d| == 3 then Triple(Value(d[0]), Value(d[1]), Value(d[2]), 0)[..2]
    else
      assert |d| >= 4 && 3 * |d| / 4 == 3 + 3 * (|d| - 4) / 4;
      Triple(Value(d[0]), Value(d[1]), Value(d[2]), Value(d[3])) + DecodeGroups(d[4..])
  }

  /** atob: None where atob throws InvalidCharacterError. */
  function Decode(s: string): Option<Bytes>
  {
    var d := Unpad(RemoveWhitespace(s));
    if |d| % 4 == 1 || !AllDigits(d) then None else Some(DecodeGroups(d))
  }

  lemma {:induction false} RemoveWhitespaceNone(s: string)
    requires forall i :: 0 <= i < |s| ==> !IsAsciiWhitespace(s[i])
    ensures RemoveWhitespace(s) == s
  {
    if s != [] {
      RemoveWhitespaceNone(s[1..]);
    }
  }

  lemma {:induction false} DecodeEncodeGroups(b: Bytes)
    ensures DecodeGroups(EncodeGroups(b)) == b
    decreases |b|
  {
    var s := EncodeGroups(b);
    if |b| == 1 {
      TripleQuad(b[0], 0, 0);
    } else if |b| == 2 {
      TripleQuad(b[0], b[1], 0);
    } else if |b| >= 3 {
      TripleQuad(b[0], b[1], b[2]);
      assert s[..4] == Quad(b[0], b[1], b[2]) && s[4..] == EncodeGroups(b[3..]);
      DecodeEncodeGroups(b[3..]);
      assert b == b[..3] + b[3..];
    }
  }

  lemma GroupsLength(n: nat)
    ensures var m := (4 * n + 2) / 3;
      (n % 3 == 0 ==> m % 4 == 0) && (n % 3 == 1 ==> m % 4 == 2) && (n % 3 == 2 ==> m % 4 == 3)
  {
    var q, r := n / 3, n % 3;
    assert n == 3 * q + r;
    assert (4 * n + 2) / 3 == 4 * q + (4 * r + 2) / 3;
  }

  lemma EncodeNoWhitespace(b: Bytes)
    ensures RemoveWhitespace(Encode(b)) == Encode(b)
  {
    var g, p := EncodeGroups(b), Padding(|b|);
    var s := Encode(b);
    forall i | 0 <= i < |s| ensures !IsAsciiWhitespace(s[i]) {
      if i < |g| { assert s[i] == g[i] && Value(g[i]) >= 0; } else { assert s[i] == p[i - |g|]; }
    }
    RemoveWhitespaceNone(s);
  }

  /** Step 2 of the decoder strips exactly the padding btoa wrote. */
  lemma UnpadEncode(b: Bytes)
    ensures Unpad(Encode(b)) == EncodeGroups(b)
  {
    UnpadGroups(EncodeGroups(b), |b|);
  }

  /** The groups of n bytes, padded as btoa pads them, unpad to themselves. */
  lemma UnpadGroups(g: string, n: nat)
    requires AllDigits(g) && |g| == (4 * n + 2) / 3
    ensures Unpad(g + Padding(n)) == g
  {
    var k := (3 - n % 3) % 3;
    PaddedLength(n, |g|, k);
    UnpadPadded(g, k);
  }

  /** The padding completes the last group of four and follows a partial one. */
  lemma PaddedLength(n: nat, m: nat, k: nat)
    requires m == (4 * n + 2) / 3 && k == (3 - n % 3) % 3
    ensures k <= 2 && (m + k) % 4 == 0 && (k > 0 ==> m % 4 != 0)
  {
    var q, r := n / 3, n % 3;
    assert n == 3 * q + r;
    assert (4 * n + 2) / 3 == 4 * q + (4 * r + 2) / 3;
  }

  lemma UnpadPadded(g: string, k: nat)
    requires AllDigits(g) && k <= 2 && (|g| + k) % 4 == 0 && (k > 0 ==> |g| % 4 != 0)
    ensures Unpad(g + Repeat('=', k)) == g
  {
    var s := g + Repeat('=', k);
    if k == 0 {
      assert s == g;
      if |g| >= 1 { assert Value(g[|g| - 1]) >= 0; }
    } else if k == 2 {
      assert s[|s| - 1] == '=' && s[|s| - 2] == '=';
      assert s[..|s| - 2] == g;
    } else {
      assert s[|s| - 1] == '=';
      assert s[|s| - 2] == g[|g| - 1] && Value(g[|g| - 1]) >= 0;
      assert s[..|s| - 1] == g;
    }
  }

  /** atob inverts btoa on every binary string, the empty one included. */
  lemma DecodeEncode(b: Bytes)
    ensures Decode(Encode(b)) == Some(b)
  {
    var g := EncodeGroups(b);
    EncodeNoWhitespace(b);
    UnpadEncode(b);
    assert Unpad(RemoveWhitespace(Encode(b))) == g;
    GroupsLength(|b|);
    assert |g| % 4 != 1;
    DecodeEncodeGroups(b);
  }

  /** The URL-safe form encoding.ts and jwt.ts derive from btoa's output:
      '+' to '-', '/' to '_', and every '=' removed. */
  function ToUrl(s: string): string
  {
    RemoveAll(Replace(Replace(s, '+', '-'), '/', '_'), '=')
  }

  /** The reverse substitution: '-' to '+' and '_' to '/'. */
  function FromUrl(s: string): (r: string)
    ensures |r| == |s| && '-' !in r && '_' !in r
  {
    Replace(Replace(s, '-', '+'), '_', '/')
  }

  /** `while (base64.length % 4) base64 += '='`, in closed form. */
  function PadTo4(s: string): (r: string)
    ensures |s| <= |r| < |s| + 4 && |r| % 4 == 0 && r[..|s|] == s
    ensures forall i :: |s| <= i < |r| ==> r[i] == '='
  {
    s + Repeat('=', (4 - |s| % 4) % 4)
  }

  /** The URL-safe text of b: b's alphabet characters with the two
      substitutions and no padding. */
  lemma ToUrlEncode(b: Bytes)
    ensures ToUrl(Encode(b)) == Replace(Replace(EncodeGroups(b), '+', '-'), '/', '_')
  {
    var g, p := EncodeGroups(b), Padding(|b|);
    var u := Replace(Replace(g, '+', '-'), '/', '_');
    assert Replace(Replace(g + p, '+', '-'), '/', '_') == u + p;
    RemoveAllAppend(u, p, '=');
    assert forall i :: 0 <= i < |u| ==> u[i] != '=' by {
      forall i | 0 <= i < |u| ensures u[i] != '=' {
        assert Value(g[i]) >= 0;
      }
    }
    RemoveAllAbsent(u, '=');
    RemoveAllRepeat('=', |p|);
  }

  /** Undoing the substitutions and re-padding restores btoa's output exactly. */
  lemma FromUrlToUrl(b: Bytes)
    ensures PadTo4(FromUrl(ToUrl(Encode(b)))) == Encode(b)
  {
    var g := EncodeGroups(b);
    ToUrlEncode(b);
    FromUrlSafe(g);
    PadGroups(b);
  }

  /** Padding the groups to a multiple of four restores btoa's padding. */
  lemma PadGroups(b: Bytes)
    ensures PadTo4(EncodeGroups(b)) == Encode(b)
  {
    var g := EncodeGroups(b);
    PaddingCount(|b|);
    var k := (4 - |g| % 4) % 4;
    assert k == (3 - |b| % 3) % 3;
    assert PadTo4(g) == g + Repeat('=', k);
  }

  /** Undoing the two substitutions gives back btoa's alphabet. */
  lemma FromUrlSafe(g: string)
    requires AllDigits(g)
    ensures FromUrl(Replace(Replace(g, '+', '-'), '/', '_')) == g
  {
    var u := Replace(Replace(g, '+', '-'), '/', '_');
    forall i | 0 <= i < |g| ensures FromUrl(u)[i] == g[i] {
      assert Value(g[i]) >= 0;
    }
  }

  lemma PaddingCount(n: nat)
    ensures (4 - (4 * n + 2) / 3 % 4) % 4 == (3 - n % 3) % 3
  {
    var q, r := n / 3, n % 3;
    assert n == 3 * q + r;
    assert (4 * n + 2) / 3 == 4 * q + (4 * r + 2) / 3;
  }

  /** The URL-safe text of any byte string decodes back to it. */
  lemma UrlRoundTrip(b: Bytes)
    ensures Decode(PadTo4(FromUrl(ToUrl(Encode(b))))) == Some(b)
  {
    FromUrlToUrl(b);
    DecodeEncode(b);
  }

  /** The URL-safe text uses neither '+', '/', '=' nor the token separator '.'. */
  lemma ToUrlAlphabet(b: Bytes)
    ensures '+' !in ToUrl(Encode(b)) && '/' !in ToUrl(Encode(b))
    ensures '=' !in ToUrl(Encode(b)) && '.' !in ToUrl(Encode(b))
  {
    ToUrlEncode(b);
    var g := EncodeGroups(b);
    var u := Replace(Replace(g, '+', '-'), '/', '_');
    forall i | 0 <= i < |u| ensures u[i] != '+' && u[i] != '/' && u[i] != '.' {
      assert Value(g[i]) >= 0;
    }
  }
}
