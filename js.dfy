/** The pieces of the JavaScript runtime that encodeHex and decodeHex lean
    on: UTF-16 code units, the `\s` class, Number.prototype.toString(16),
    parseInt(_, 16) and String.fromCharCode. */
module Js {
  import opened Wrappers
  import opened Binary
  import opened Strings

  // ---------------------------------------------------------------- UTF-16

  /** The UTF-16 code units of one code point: itself below U+10000, else a
      high and a low surrogate. */
  function CodeUnits(c: char): (u: seq<CodeUnit>)
    ensures 1 <= |u| <= 2
    ensures |u| == 1 <==> c as int < 0x1_0000
    ensures |u| == 1 ==> u[0] == c as int
    ensures |u| == 2 ==> 0xD800 <= u[0] < 0xDC00 <= u[1] < 0xE000
  {
    if c as int < 0x1_0000 then [c as int]
    else
      var v := c as int - 0x1_0000;
      [0xD800 + v / 0x400, 0xDC00 + v % 0x400]
  }

  /** The code units of a string, which is what `length` and `substr` count. */
  function Utf16(s: string): (u: seq<CodeUnit>)
    ensures |s| <= |u| <= 2 * |s|
  {
    if s == [] then [] else CodeUnits(s[0]) + Utf16(s[1..])
  }

  /** charCodeAt(0) of a one-code-point string. */
  function CharCodeAt0(c: char): (u: CodeUnit)
    ensures c as int < 0x1_0000 ==> u == c as int
  {
    CodeUnits(c)[0]
  }

  lemma {:induction false} Utf16Binary(s: string)
    requires IsBinary(s)
    ensures Utf16(s) == ToBytes(s)
  {
    if s != [] {
      Utf16Binary(s[1..]);
      assert ToBytes(s) == [s[0] as int] + ToBytes(s[1..]);
    }
  }

  lemma {:induction false} Utf16Append(a: string, b: string)
    ensures Utf16(a + b) == Utf16(a) + Utf16(b)
  {
    if a == [] {
      assert a + b == b;
    } else {
      assert (a + b)[0] == a[0] && (a + b)[1..] == a[1..] + b;
      Utf16Append(a[1..], b);
    }
  }

  // ------------------------------------------------------------------- \s

  /** A code point matched by the regular expression `\s`: the WhiteSpace and
      LineTerminator code points of ECMAScript. */
  predicate IsSpace(c: char)
  {
    c == '\t' || c == '\n' || c == '\U{000B}' || c == '\U{000C}' || c == '\r' || c == ' '
    || c == '\U{00A0}' || c == '\U{1680}' || '\U{2000}' <= c <= '\U{200A}'
    || c == '\U{2028}' || c == '\U{2029}' || c == '\U{202F}' || c == '\U{205F}'
    || c == '\U{3000}' || c == '\U{FEFF}'
  }

  /** `s.replace(/\s/g, '')`. */
  function RemoveSpaces(s: string): (r: string)
    ensures |r| <= |s|
    ensures forall i :: 0 <= i < |r| ==> !IsSpace(r[i])
  {
    if s == [] then []
    else (if IsSpace(s[0]) then [] else [s[0]]) + RemoveSpaces(s[1..])
  }

  lemma {:induction false} RemoveSpacesNone(s: string)
    requires forall i :: 0 <= i < |s| ==> !IsSpace(s[i])
    ensures RemoveSpaces(s) == s
  {
    if s != [] {
      RemoveSpacesNone(s[1..]);
    }
  }

  // ------------------------------------------------------------ radix 16

  /** The value of a radix-16 digit (either case), or -1. */
  function HexDigitValue(u: int): (v: int)
    ensures -1 <= v < 16
  {
    if '0' as int <= u <= '9' as int then u - '0' as int
    else if 'a' as int <= u <= 'f' as int then u - 'a' as int + 10
    else if 'A' as int <= u <= 'F' as int then u - 'A' as int + 10
    else -1
  }

  /** A radix-16 digit is ASCII and not white space. */
  lemma DigitPlain(c: char)
    requires HexDigitValue(c as int) >= 0
    ensures c as int < 128 && !IsSpace(c)
  {
  }

  /** Text made of radix-16 digits loses nothing to white-space removal and
      is one code unit per character. */
  lemma DigitsPlain(s: string)
    requires forall i :: 0 <= i < |s| ==> HexDigitValue(s[i] as int) >= 0
    ensures IsBinary(s) && RemoveSpaces(s) == s && Utf16(s) == ToBytes(s)
  {
    forall i | 0 <= i < |s|
      ensures s[i] as int < 128 && !IsSpace(s[i])
    {
      DigitPlain(s[i]);
    }
    RemoveSpacesNone(s);
    Utf16Binary(s);
  }

  const HexDigits: string := "0123456789abcdef"

  /** The lower-case digit toString(16) writes for v. */
  function HexChar(v: nat): (c: char)
    requires v < 16
    ensures HexDigitValue(c as int) == v
    ensures 'A' as int <= c as int <= 'F' as int ==> false
  {
    HexDigits[v]
  }

  /** The value of a string of radix-16 digits, most significant first. */
  function Numeral(z: seq<int>): (n: nat)
    requires forall i :: 0 <= i < |z| ==> HexDigitValue(z[i]) >= 0
  {
    if z == [] then 0 else 16 * Numeral(z[..|z| - 1]) + HexDigitValue(z[|z| - 1])
  }

  /** Number.prototype.toString(16) on a non-negative integer: lower-case
      digits, no leading zero except for zero itself. */
  function ToHexString(n: nat): (s: string)
    ensures |s| >= 1
    ensures forall i :: 0 <= i < |s| ==> HexDigitValue(s[i] as int) >= 0
    ensures |s| > 1 ==> s[0] != '0'
  {
    if n < 16 then [HexChar(n)] else ToHexString(n / 16) + [HexChar(n % 16)]
  }

  /** parseInt reads back what toString(16) writes. */
  lemma {:induction false} NumeralToHexString(n: nat)
    ensures var u := Utf16(ToHexString(n));
      (forall i :: 0 <= i < |u| ==> HexDigitValue(u[i]) >= 0) && Numeral(u) == n
  {
    var s := ToHexString(n);
    if n < 16 {
      assert Utf16(s) == [HexChar(n) as int];
      assert Utf16(s)[..0] == [];
    } else {
      var p := ToHexString(n / 16);
      Utf16Append(p, [HexChar(n % 16)]);
      NumeralToHexString(n / 16);
      var u := Utf16(s);
      assert u == Utf16(p) + [HexChar(n % 16) as int];
      assert u[..|u| - 1] == Utf16(p);
    }
  }

  /** The two characters toString(16) and padStart(2, '0') give a byte. */
  lemma HexOfByte(b: Byte)
    ensures var s := PadStart2(ToHexString(b));
      s == [HexChar(b / 16), HexChar(b % 16)]
  {
    var hi, lo := b / 16, b % 16;
    assert b == 16 * hi + lo && hi < 16;
    if hi > 0 {
      assert ToHexString(b) == ToHexString(hi) + [HexChar(lo)];
      assert ToHexString(hi) == [HexChar(hi)];
    } else {
      assert ToHexString(b) == [HexChar(lo)];
      assert HexChar(0) == '0';
      assert PadStart2([HexChar(lo)]) == "0" + [HexChar(lo)];
    }
  }

  /** `s.padStart(2, '0')`. */
  function PadStart2(s: string): (r: string)
    ensures |r| == if |s| < 2 then 2 else |s|
    ensures |s| >= 2 ==> r == s
    ensures |s| < 2 ==> r[2 - |s|..] == s && forall i :: 0 <= i < 2 - |s| ==> r[i] == '0'
  {
    if |s| < 2 then Repeat('0', 2 - |s|) + s else s
  }

  // ------------------------------------------------------------- parseInt

  /** How many radix-16 digits s starts with. */
  function DigitRun(s: seq<int>): (n: nat)
    ensures n <= |s|
    ensures forall i :: 0 <= i < n ==> HexDigitValue(s[i]) >= 0
    ensures n < |s| ==> HexDigitValue(s[n]) < 0
  {
    if s == [] || HexDigitValue(s[0]) < 0 then 0 else 1 + DigitRun(s[1..])
  }

  /** parseInt(s, 16) on text without leading white space: an optional sign,
      an optional "0x" or "0X", then the longest run of radix-16 digits;
      None stands for NaN, which an empty run gives. */
  function ParseIntHex(s: seq<int>): (r: Option<int>)
  {
    var sign := if |s| > 0 && s[0] == '-' as int then -1 else 1;
    var t := if |s| > 0 && (s[0] == '+' as int || s[0] == '-' as int) then s[1..] else s;
    var u := if |t| >= 2 && t[0] == '0' as int && (t[1] == 'x' as int || t[1] == 'X' as int) then t[2..] else t;
    var n := DigitRun(u);
    if n == 0 then None else Some(sign * Numeral(u[..n]))
  }

  /** String.fromCharCode: ToUint16, the integer taken modulo 2^16. */
  function FromCharCode(n: int): (u: CodeUnit)
    ensures 0 <= n < 0x1_0000 ==> u == n
    ensures -0x1_0000 <= n < 0 ==> u == n + 0x1_0000
  {
    n % 0x1_0000
  }

  /** parseInt(_, 16) of a two-unit string, case by case: two digits are a
      byte; a digit before a non-digit is that digit, unless the two are
      "0x" or "0X", a prefix that leaves nothing; a sign before a digit is
      that digit signed; anything else is NaN. */
  function ParsePair(a: int, b: int): (r: Option<int>)
    ensures r.Some? ==> -16 < r.value < 256
  {
    var da, db := HexDigitValue(a), HexDigitValue(b);
    if da >= 0 && db >= 0 then Some(16 * da + db)
    else if da >= 0 then
      if a == '0' as int && (b == 'x' as int || b == 'X' as int) then None else Some(da)
    else if db >= 0 && a == '+' as int then Some(db)
    else if db >= 0 && a == '-' as int then Some(-db)
    else None
  }

  lemma NumeralOne(a: int)
    requires HexDigitValue(a) >= 0
    ensures Numeral([a]) == HexDigitValue(a)
  {
    assert [a][..0] == [];
  }

  lemma DigitRunOne(a: int)
    ensures DigitRun([a]) == if HexDigitValue(a) >= 0 then 1 else 0
  {
    if HexDigitValue(a) >= 0 {
      assert [a][1..] == [];
    }
  }

  /** parseInt of a two-unit string is the closed form. */
  lemma ParsePairAgrees(a: int, b: int)
    ensures ParseIntHex([a, b]) == ParsePair(a, b)
  {
    if HexDigitValue(a) >= 0 {
      ParseDigitFirst(a, b);
    } else if a == '+' as int || a == '-' as int {
      ParseSignFirst(a, b);
    } else {
      var s := [a, b];
      assert DigitRun(s) == 0;
    }
  }

  lemma ParseDigitFirst(a: int, b: int)
    requires HexDigitValue(a) >= 0
    ensures ParseIntHex([a, b]) == ParsePair(a, b)
  {
    var s := [a, b];
    assert a != '-' as int && a != '+' as int;
    if a == '0' as int && (b == 'x' as int || b == 'X' as int) {
      assert s[2..] == [];
    } else if HexDigitValue(b) >= 0 {
      ParseTwoDigits(a, b);
    } else {
      ParseDigitThenOther(a, b);
    }
  }

  lemma ParseDigitThenOther(a: int, b: int)
    requires HexDigitValue(a) >= 0 && HexDigitValue(b) < 0
    requires !(a == '0' as int && (b == 'x' as int || b == 'X' as int))
    ensures ParseIntHex([a, b]) == Some(HexDigitValue(a))
  {
    var s := [a, b];
    assert a != '-' as int && a != '+' as int;
    assert s[1..] == [b];
    DigitRunOne(b);
    assert DigitRun(s) == 1;
    assert s[..1] == [a];
    NumeralOne(a);
  }

  lemma ParseSignFirst(a: int, b: int)
    requires a == '+' as int || a == '-' as int
    ensures ParseIntHex([a, b]) == ParsePair(a, b)
  {
    var s := [a, b];
    assert s[1..] == [b];
    DigitRunOne(b);
    if HexDigitValue(b) >= 0 {
      assert [b][..1] == [b];
      NumeralOne(b);
    }
  }

  /** parseInt(s.substr(i, 2), 16). */
  method ParseSubstr2(s: seq<CodeUnit>, i: nat) returns (r: Option<int>)
    requires i + 2 <= |s|
    ensures r == ParsePair(s[i], s[i + 1])
  {
    r := ParseIntHex(s[i..i + 2]);
    assert s[i..i + 2] == [s[i], s[i + 1]];
    ParsePairAgrees(s[i], s[i + 1]);
  }

  /** Two radix-16 digits parse to the byte they spell. */
  lemma ParseTwoDigits(a: int, b: int)
    requires HexDigitValue(a) >= 0 && HexDigitValue(b) >= 0
    ensures ParseIntHex([a, b]) == Some(16 * HexDigitValue(a) + HexDigitValue(b))
  {
    var s := [a, b];
    assert s[0] != '-' as int && s[0] != '+' as int;
    assert s[1] != 'x' as int && s[1] != 'X' as int;
    assert DigitRun(s) == 2 by {
      assert s[1..] == [b] && s[1..][1..] == [];
    }
    assert s[..2] == s && s[..1] == [a] && s[..1][..0] == [];
    assert Numeral([a]) == HexDigitValue(a);
    assert Numeral(s) == 16 * Numeral([a]) + HexDigitValue(b);
  }
}
