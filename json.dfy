/** JSON.stringify and JSON.parse on the values a token carries: flat
    objects whose properties hold a string, an integer or a boolean
    (JWTHeader and JWTPayload of src/types/jwt.ts). */
module Json {
  import opened Wrappers
  import opened Binary
  import Js
  import opened Strings

  datatype Scalar = Str(s: string) | Num(n: int) | Bool(b: bool)

  type Member = (string, Scalar)

  predicate DistinctKeys(ms: seq<Member>)
  {
    forall i, j :: 0 <= i < j < |ms| ==> ms[i].0 != ms[j].0
  }

  /** A JavaScript object: its properties in enumeration order, each key once. */
  type Object = ms: seq<Member> | DistinctKeys(ms) witness []

  const Empty: Object := []

  /** The position of the property named k, or -1. */
  function KeyIndex(o: seq<Member>, k: string): (i: int)
    ensures -1 <= i < |o|
    ensures i >= 0 ==> o[i].0 == k && forall j :: 0 <= j < i ==> o[j].0 != k
    ensures i == -1 <==> forall j :: 0 <= j < |o| ==> o[j].0 != k
  {
    if o == [] then -1
    else if o[|o| - 1].0 == k && KeyIndex(o[..|o| - 1], k) == -1 then |o| - 1
    else KeyIndex(o[..|o| - 1], k)
  }

  /** o[k], undefined as None. */
  function Lookup(o: Object, k: string): Option<Scalar>
  {
    var i := KeyIndex(o, k);
    if i < 0 then None else Some(o[i].1)
  }

  /** o[k] = v: an existing property keeps its place and takes the new
      value, a new one goes last. */
  function Put(o: Object, k: string, v: Scalar): Object
  {
    var i := KeyIndex(o, k);
    if i >= 0 then
      assert DistinctKeys(o[i := (k, v)]) by {
        assert forall j :: 0 <= j < |o| ==> o[i := (k, v)][j].0 == o[j].0;
      }
      o[i := (k, v)]
    else
      o + [(k, v)]
  }

  /** Lookup finds the value of the one property with that key, and
      nothing when there is none. */
  lemma LookupMeaning(o: Object, k: string)
    ensures Lookup(o, k).Some? <==> exists i :: 0 <= i < |o| && o[i].0 == k
    ensures forall i :: 0 <= i < |o| && o[i].0 == k ==> Lookup(o, k) == Some(o[i].1)
  {
  }

  /** After o[k] = v, o[k] is v and every other key reads as before; the
      keys keep their order, a new key goes last. */
  lemma PutMeaning(o: Object, k: string, v: Scalar)
    ensures Lookup(Put(o, k, v), k) == Some(v)
    ensures forall k' :: k' != k ==> Lookup(Put(o, k, v), k') == Lookup(o, k')
    ensures Lookup(o, k).Some? ==> |Put(o, k, v)| == |o| && forall i :: 0 <= i < |o| ==> Put(o, k, v)[i].0 == o[i].0
    ensures Lookup(o, k).None? ==> Put(o, k, v) == o + [(k, v)]
  {
    var r := Put(o, k, v);
    var i := KeyIndex(o, k);
    forall k' | k' != k ensures Lookup(r, k') == Lookup(o, k') {
      if i >= 0 {
        assert forall j :: 0 <= j < |o| ==> r[j].0 == o[j].0;
        LookupMeaning(r, k');
        LookupMeaning(o, k');
      } else {
        LookupMeaning(r, k');
        LookupMeaning(o, k');
      }
    }
    LookupMeaning(r, k);
    if i >= 0 {
      assert r[i] == (k, v);
    } else {
      assert r[|o|] == (k, v);
    }
  }

  // ----------------------------------------------------------- stringify

  /** How JSON.stringify writes one character of a string: the quote and
      the backslash escaped, the five control characters with short
      escapes by name, every other one below U+0020 as a lower-case \u00XX
      escape, and everything else as itself. */
  function QuoteChar(c: char): (r: string)
    ensures |r| >= 1
  {
    if c == '"' then "\\\""
    else if c == '\\' then "\\\\"
    else if c == '\U{8}' then "\\b"
    else if c == '\U{C}' then "\\f"
    else if c == '\n' then "\\n"
    else if c == '\r' then "\\r"
    else if c == '\t' then "\\t"
    else if (c as int) < 0x20 then "\\u00" + [Js.HexChar(c as int / 16), Js.HexChar(c as int % 16)]
    else [c]
  }

  function Escape(s: string): string
  {
    if s == [] then [] else QuoteChar(s[0]) + Escape(s[1..])
  }

  function Quote(s: string): string
  {
    "\"" + Escape(s) + "\""
  }

  function DecimalChar(d: nat): (c: char)
    requires d < 10
    ensures '0' <= c <= '9' && c as int - '0' as int == d
  {
    ('0' as int + d) as char
  }

  /** The shortest decimal numeral of n. */
  function Decimal(n: nat): (s: string)
    ensures |s| >= 1 && (|s| > 1 ==> s[0] != '0')
    ensures forall i :: 0 <= i < |s| ==> '0' <= s[i] <= '9'
  {
    if n < 10 then [DecimalChar(n)] else Decimal(n / 10) + [DecimalChar(n % 10)]
  }

  function NumberText(n: int): string
  {
    if n < 0 then "-" + Decimal(-n) else Decimal(n)
  }

  function ScalarText(v: Scalar): string
  {
    match v
    case Str(s) => Quote(s)
    case Num(n) => NumberText(n)
    case Bool(b) => if b then "true" else "false"
  }

  function MemberText(m: Member): string
  {
    Quote(m.0) + ":" + ScalarText(m.1)
  }

  function MembersText(ms: seq<Member>): string
  {
    if ms == [] then ""
    else if |ms| == 1 then MemberText(ms[0])
    else MemberText(ms[0]) + "," + MembersText(ms[1..])
  }

  /** JSON.stringify(o), with no white space. */
  function Stringify(o: Object): string
  {
    "{" + MembersText(o) + "}"
  }

  /** Every key and every string value has only codes below 256. */
  predicate Latin1(ms: seq<Member>)
  {
    forall i :: 0 <= i < |ms| ==> IsBinary(ms[i].0) && (ms[i].1.Str? ==> IsBinary(ms[i].1.s))
  }

  lemma BinaryAppend(a: string, b: string)
    ensures IsBinary(a + b) <==> IsBinary(a) && IsBinary(b)
  {
    if IsBinary(a) && IsBinary(b) {
      forall i | 0 <= i < |a + b| ensures (a + b)[i] as int < 256 {
        if i < |a| { assert (a + b)[i] == a[i]; } else { assert (a + b)[i] == b[i - |a|]; }
      }
    }
    if IsBinary(a + b) {
      forall i | 0 <= i < |a| ensures a[i] as int < 256 { assert (a + b)[i] == a[i]; }
      forall i | 0 <= i < |b| ensures b[i] as int < 256 { assert (a + b)[|a| + i] == b[i]; }
    }
  }

  /** A character's JSON text is binary exactly when the character is. */
  lemma QuoteCharBinary(c: char)
    ensures IsBinary(QuoteChar(c)) <==> c as int < 256
  {
    if c as int < 0x20 && !(c == '\U{8}' || c == '\U{C}' || c == '\n' || c == '\r' || c == '\t') {
      var h1, h2 := Js.HexChar(c as int / 16), Js.HexChar(c as int % 16);
      assert h1 as int < 256 && h2 as int < 256;
    } else if c as int >= 256 {
      assert QuoteChar(c)[0] == c;
    }
  }

  lemma {:induction false} EscapeBinary(s: string)
    ensures IsBinary(Escape(s)) <==> IsBinary(s)
  {
    if s != [] {
      EscapeBinary(s[1..]);
      QuoteCharBinary(s[0]);
      BinaryAppend(QuoteChar(s[0]), Escape(s[1..]));
      BinaryAppend([s[0]], s[1..]);
      assert s == [s[0]] + s[1..];
    }
  }

  lemma QuoteBinary(s: string)
    ensures IsBinary(Quote(s)) <==> IsBinary(s)
  {
    EscapeBinary(s);
    BinaryAppend("\"", Escape(s));
    BinaryAppend("\"" + Escape(s), "\"");
  }

  lemma NumberTextBinary(n: int)
    ensures IsBinary(NumberText(n))
  {
    var d := Decimal(if n < 0 then -n else n);
    assert IsBinary(d);
    BinaryAppend("-", d);
  }

  lemma MemberTextBinary(m: Member)
    ensures IsBinary(MemberText(m)) <==> IsBinary(m.0) && (m.1.Str? ==> IsBinary(m.1.s))
  {
    var v := ScalarText(m.1);
    QuoteBinary(m.0);
    BinaryAppend(Quote(m.0), ":");
    BinaryAppend(Quote(m.0) + ":", v);
    match m.1
    case Str(s) => QuoteBinary(s);
    case Num(n) => NumberTextBinary(n);
    case Bool(b) => assert IsBinary(v);
  }

  lemma Latin1Cons(ms: seq<Member>)
    requires ms != []
    ensures Latin1(ms) <==> Latin1([ms[0]]) && Latin1(ms[1..])
  {
    if Latin1([ms[0]]) && Latin1(ms[1..]) {
      forall i | 0 <= i < |ms|
        ensures IsBinary(ms[i].0) && (ms[i].1.Str? ==> IsBinary(ms[i].1.s))
      {
        if i > 0 { assert ms[i] == ms[1..][i - 1]; } else { assert ms[i] == [ms[0]][0]; }
      }
    }
    if Latin1(ms) {
      assert [ms[0]][0] == ms[0];
      forall i | 0 <= i < |ms[1..]|
        ensures IsBinary(ms[1..][i].0) && (ms[1..][i].1.Str? ==> IsBinary(ms[1..][i].1.s))
      {
        assert ms[1..][i] == ms[i + 1];
      }
    }
  }

  lemma {:induction false} MembersTextBinary(ms: seq<Member>)
    ensures IsBinary(MembersText(ms)) <==> Latin1(ms)
  {
    if ms != [] {
      MemberTextBinary(ms[0]);
      Latin1Cons(ms);
      assert Latin1([ms[0]]) <==> IsBinary(ms[0].0) && (ms[0].1.Str? ==> IsBinary(ms[0].1.s)) by {
        assert [ms[0]][0] == ms[0];
      }
      if |ms| > 1 {
        MembersTextBinary(ms[1..]);
        BinaryAppend(MemberText(ms[0]), ",");
        BinaryAppend(MemberText(ms[0]) + ",", MembersText(ms[1..]));
      } else {
        assert ms[1..] == [];
      }
    }
  }

  /** JSON.stringify(o) is a binary string, one btoa accepts, exactly when
      every key and every string value is. */
  lemma StringifyBinary(o: Object)
    ensures IsBinary(Stringify(o)) <==> Latin1(o)
  {
    MembersTextBinary(o);
    BinaryAppend("{", MembersText(o));
    BinaryAppend("{" + MembersText(o), "}");
  }

  // --------------------------------------------------------------- parse

  predicate IsJsonSpace(c: char)
  {
    c == ' ' || c == '\t' || c == '\n' || c == '\r'
  }

  function SkipSpace(s: string): (r: string)
    ensures |r| <= |s| && (r != [] ==> !IsJsonSpace(r[0]))
  {
    if s != [] && IsJsonSpace(s[0]) then SkipSpace(s[1..]) else s
  }

  /** The value of four hexadecimal digits, as a \u escape carries it. */
  function Hex4(s: string): (r: Option<int>)
    requires |s| >= 4
    ensures r.Some? ==> 0 <= r.value < 0x1_0000
  {
    var h := [Js.HexDigitValue(s[0] as int), Js.HexDigitValue(s[1] as int),
              Js.HexDigitValue(s[2] as int), Js.HexDigitValue(s[3] as int)];
    if h[0] < 0 || h[1] < 0 || h[2] < 0 || h[3] < 0 then None
    else Some(((h[0] * 16 + h[1]) * 16 + h[2]) * 16 + h[3])
  }

  /** The character after a backslash, and for \u the digits too. */
  function Unescape(s: string): (r: Option<(char, string)>)
    ensures r.Some? ==> |r.value.1| < |s|
  {
    if s == [] then None
    else if s[0] == '"' then Some(('"', s[1..]))
    else if s[0] == '\\' then Some(('\\', s[1..]))
    else if s[0] == '/' then Some(('/', s[1..]))
    else if s[0] == 'b' then Some(('\U{8}', s[1..]))
    else if s[0] == 'f' then Some(('\U{C}', s[1..]))
    else if s[0] == 'n' then Some(('\n', s[1..]))
    else if s[0] == 'r' then Some(('\r', s[1..]))
    else if s[0] == 't' then Some(('\t', s[1..]))
    else if s[0] == 'u' then UnescapeUnicode(s[1..])
    else None
  }

  /** The four digits after \u. A high-surrogate escape followed by a
      low-surrogate escape stands for the one character the pair encodes;
      any other surrogate escape is refused. */
  function UnescapeUnicode(s: string): (r: Option<(char, string)>)
    ensures r.Some? ==> |r.value.1| <= |s| - 4
  {
    if |s| < 4 then None
    else match Hex4(s[..4])
      case None => None
      case Some(v) =>
        if v < 0xD800 || 0xE000 <= v then Some((v as char, s[4..]))
        else if v < 0xDC00 && |s| >= 10 && s[4] == '\\' && s[5] == 'u' then
          match Hex4(s[6..10])
          case None => None
          case Some(w) =>
            if 0xDC00 <= w < 0xE000 then
              Some(((0x1_0000 + (v - 0xD800) * 0x400 + (w - 0xDC00)) as char, s[10..]))
            else None
        else None
  }

  /** The characters of a string literal up to its closing quote, and
      what follows that quote. */
  function ParseChars(s: string): (r: Option<(string, string)>)
    ensures r.Some? ==> |r.value.1| < |s|
    decreases |s|
  {
    if s == [] then None
    else if s[0] == '"' then Some(([], s[1..]))
    else if (s[0] as int) < 0x20 then None
    else
      var e := ReadChar(s);
      if e.None? then None
      else
        var r := ParseChars(e.value.1);
        if r.None? then None else Some(([e.value.0] + r.value.0, r.value.1))
  }

  /** One character of a string literal, escaped or not. */
  function ReadChar(s: string): (r: Option<(char, string)>)
    requires s != []
    ensures r.Some? ==> |r.value.1| < |s|
  {
    if s[0] == '\\' then Unescape(s[1..]) else Some((s[0], s[1..]))
  }

  function ParseString(s: string): (r: Option<(string, string)>)
    ensures r.Some? ==> |r.value.1| < |s|
  {
    if s != [] && s[0] == '"' then ParseChars(s[1..]) else None
  }

  /** The number of decimal digits s starts with. */
  function DigitRun(s: string): (n: nat)
    ensures n <= |s| && forall i :: 0 <= i < n ==> '0' <= s[i] <= '9'
    ensures n < |s| ==> !('0' <= s[n] <= '9')
  {
    if s != [] && '0' <= s[0] <= '9' then 1 + DigitRun(s[1..]) else 0
  }

  function DecimalValue(s: string): nat
    requires forall i :: 0 <= i < |s| ==> '0' <= s[i] <= '9'
  {
    if s == [] then 0 else DecimalValue(s[..|s| - 1]) * 10 + (s[|s| - 1] as int - '0' as int)
  }

  /** An integer without leading zeros; a fraction or an exponent after
      it is outside the values modelled. */
  function ParseNatural(t: string): (r: Option<(int, string)>)
    ensures r.Some? ==> r.value.0 >= 0 && |r.value.1| < |t|
  {
    var k := DigitRun(t);
    if k == 0 || (k > 1 && t[0] == '0') then None
    else if k < |t| && (t[k] == '.' || t[k] == 'e' || t[k] == 'E') then None
    else Some((DecimalValue(t[..k]) as int, t[k..]))
  }

  /** An optional minus and a natural number. */
  function ParseNumber(s: string): (r: Option<(int, string)>)
    ensures r.Some? ==> |r.value.1| < |s|
  {
    if s != [] && s[0] == '-' then
      var r := ParseNatural(s[1..]);
      if r.None? then None else Some((-r.value.0, r.value.1))
    else
      ParseNatural(s)
  }

  function ParseValue(s: string): (r: Option<(Scalar, string)>)
    ensures r.Some? ==> |r.value.1| < |s|
  {
    ParseToken(SkipSpace(s))
  }

  /** A value starting right at t[0]. */
  function ParseToken(t: string): (r: Option<(Scalar, string)>)
    ensures r.Some? ==> |r.value.1| < |t|
  {
    if t == [] then None
    else if t[0] == '"' then
      var r := ParseString(t);
      if r.None? then None else Some((Str(r.value.0), r.value.1))
    else if t[0] == '-' || '0' <= t[0] <= '9' then
      var r := ParseNumber(t);
      if r.None? then None else Some((Num(r.value.0), r.value.1))
    else if |t| >= 4 && t[0] == 't' && t[1] == 'r' && t[2] == 'u' && t[3] == 'e' then
      Some((Bool(true), t[4..]))
    else if |t| >= 5 && t[0] == 'f' && t[1] == 'a' && t[2] == 'l' && t[3] == 's' && t[4] == 'e' then
      Some((Bool(false), t[5..]))
    else None
  }

  /** One member: a key, ':' and a value, white space allowed around each. */
  function ParseMember(s: string): (r: Option<(Member, string)>)
    ensures r.Some? ==> |r.value.1| < |s|
  {
    var k := ParseString(SkipSpace(s));
    if k.None? then None
    else
      var t := SkipSpace(k.value.1);
      if t == [] || t[0] != ':' then None
      else
        var v := ParseValue(t[1..]);
        if v.None? then None else Some(((k.value.0, v.value.0), SkipSpace(v.value.1)))
  }

  /** The members after '{' or ',', each assigned onto acc in turn (a
      repeated key is assigned again, as JSON.parse does), up to the
      closing '}'. */
  function ParseMembers(s: string, acc: Object): (r: Option<(Object, string)>)
    ensures r.Some? ==> |r.value.1| < |s|
    decreases |s|
  {
    var m := ParseMember(s);
    if m.None? then None
    else
      var next := Put(acc, m.value.0.0, m.value.0.1);
      var u := m.value.1;
      if u == [] then None
      else if u[0] == '}' then Some((next, u[1..]))
      else if u[0] == ',' then ParseMembers(u[1..], next)
      else None
  }

  function ParseObject(s: string): (r: Option<(Object, string)>)
    ensures r.Some? ==> |r.value.1| < |s|
  {
    var t := SkipSpace(s);
    if t == [] || t[0] != '{' then None
    else
      var u := SkipSpace(t[1..]);
      if u != [] && u[0] == '}' then Some((Empty, u[1..]))
      else ParseMembers(t[1..], Empty)
  }

  /** JSON.parse(text) for text holding one such object and nothing but
      white space around it; None where JSON.parse throws, and for JSON
      outside these values. */
  function Parse(text: string): Option<Object>
  {
    var r := ParseObject(text);
    if r.Some? && SkipSpace(r.value.1) == [] then Some(r.value.0) else None
  }

  // ---------------------------------------------------------- round trip

  /** The escape JSON.stringify writes for c reads back as c. */
  lemma ReadQuoteChar(c: char, t: string)
    ensures var s := QuoteChar(c) + t;
      s != [] && s[0] != '"' && (s[0] as int) >= 0x20 && ReadChar(s) == Some((c, t))
  {
    var q := QuoteChar(c);
    var s := q + t;
    if |q| == 1 {
      assert s[0] == c && s[1..] == t;
    } else if |q| == 2 {
      assert s[0] == '\\' && s[1..] == [q[1]] + t;
    } else {
      var hi, lo := c as int / 16, c as int % 16;
      assert s[0] == '\\' && s[1..] == "u00" + [Js.HexChar(hi), Js.HexChar(lo)] + t;
      UnescapeControl(c, t);
    }
  }

  lemma UnescapeControl(c: char, t: string)
    requires (c as int) < 0x20
    ensures Unescape("u00" + [Js.HexChar(c as int / 16), Js.HexChar(c as int % 16)] + t) == Some((c, t))
  {
    var hi, lo := c as int / 16, c as int % 16;
    var s := "u00" + [Js.HexChar(hi), Js.HexChar(lo)] + t;
    assert s[1..] == "00" + [Js.HexChar(hi), Js.HexChar(lo)] + t;
    var d := s[1..];
    assert d[..4] == "00" + [Js.HexChar(hi), Js.HexChar(lo)] && d[4..] == t;
    assert ((0 * 16 + 0) * 16 + hi) * 16 + lo == c as int;
    assert Hex4(d[..4]) == Some(c as int);
  }

  /** The \u escape of one code unit, as other JSON writers put a
      character outside ASCII: four lower-case digits. */
  function UnicodeEscape(u: Binary.CodeUnit): (r: string)
    ensures |r| == 5 && r[0] == 'u' && Hex4(r[1..]) == Some(u)
  {
    var q1, d3 := u / 16, u % 16;
    var q2, d2 := q1 / 16, q1 % 16;
    var d0, d1 := q2 / 16, q2 % 16;
    Hex4Digits(d0, d1, d2, d3);
    ['u', Js.HexChar(d0), Js.HexChar(d1), Js.HexChar(d2), Js.HexChar(d3)]
  }

  lemma Hex4Digits(d0: nat, d1: nat, d2: nat, d3: nat)
    requires d0 < 16 && d1 < 16 && d2 < 16 && d3 < 16
    ensures Hex4([Js.HexChar(d0), Js.HexChar(d1), Js.HexChar(d2), Js.HexChar(d3)]) ==
      Some(((d0 * 16 + d1) * 16 + d2) * 16 + d3)
  {
  }

  /** A character above U+FFFF written as the escapes of its two UTF-16
      surrogates reads back as that one character. */
  lemma UnescapePair(c: char, t: string)
    requires c as int >= 0x1_0000
    ensures var u := Js.CodeUnits(c);
      Unescape(UnicodeEscape(u[0]) + "\\" + UnicodeEscape(u[1]) + t) == Some((c, t))
  {
    var u := Js.CodeUnits(c);
    var x := c as int - 0x1_0000;
    assert x == x / 0x400 * 0x400 + x % 0x400;
    PairReads(UnicodeEscape(u[0]), UnicodeEscape(u[1]), t, u[0], u[1]);
  }

  /** A high-surrogate escape, a backslash and a low-surrogate escape read
      as the character the two surrogates encode. */
  lemma PairReads(hi: string, lo: string, t: string, v: int, w: int)
    requires |hi| == 5 && hi[0] == 'u' && Hex4(hi[1..]) == Some(v) && 0xD800 <= v < 0xDC00
    requires |lo| == 5 && lo[0] == 'u' && Hex4(lo[1..]) == Some(w) && 0xDC00 <= w < 0xE000
    ensures Unescape(hi + "\\" + lo + t) == Some(((0x1_0000 + (v - 0xD800) * 0x400 + (w - 0xDC00)) as char, t))
  {
    var s := hi + "\\" + lo + t;
    var d := s[1..];
    assert d == hi[1..] + "\\" + lo + t;
    assert d[..4] == hi[1..] && d[4] == '\\' && d[5] == 'u';
    assert d[6..10] == lo[1..] && d[10..] == t;
  }

  /** The escaped pair for U+1F600 reads as that character; its high half
      alone is refused. */
  lemma UnescapePairExample()
    ensures Unescape("ud83d\\ude00") == Some(('\U{1F600}', ""))
    ensures Unescape("ud83d") == None
  {
    var s := "ud83d\\ude00";
    assert s[1..][..4] == "d83d" && s[1..][6..10] == "de00";
    assert Hex4("d83d") == Some(0xD83D) && Hex4("de00") == Some(0xDE00);
  }

  /** An escaped string followed by its closing quote reads back. */
  lemma {:induction false} ParseCharsEscape(x: string, rest: string)
    ensures ParseChars(Escape(x) + "\"" + rest) == Some((x, rest))
    decreases |x|
  {
    if x == [] {
      assert Escape(x) + "\"" + rest == "\"" + rest;
    } else {
      var tail := Escape(x[1..]) + "\"" + rest;
      assert Escape(x) + "\"" + rest == QuoteChar(x[0]) + tail;
      ReadQuoteChar(x[0], tail);
      ParseCharsEscape(x[1..], rest);
      ParseCharsCons(QuoteChar(x[0]) + tail, x[0], tail);
      assert [x[0]] + x[1..] == x;
    }
  }

  /** One character that is not the closing quote, then the rest. */
  lemma ParseCharsCons(s: string, c: char, t: string)
    requires s != [] && s[0] != '"' && (s[0] as int) >= 0x20 && ReadChar(s) == Some((c, t))
    ensures ParseChars(s) ==
      match ParseChars(t)
      case None => None
      case Some(r) => Some(([c] + r.0, r.1))
  {
  }

  lemma ParseQuote(x: string, rest: string)
    ensures ParseString(Quote(x) + rest) == Some((x, rest))
  {
    var s := Quote(x) + rest;
    assert s[0] == '"' && s[1..] == Escape(x) + "\"" + rest;
    ParseCharsEscape(x, rest);
  }

  lemma {:induction false} DecimalRoundTrip(n: nat)
    ensures DecimalValue(Decimal(n)) == n
  {
    if n >= 10 {
      DecimalRoundTrip(n / 10);
      var d := Decimal(n);
      assert d[..|d| - 1] == Decimal(n / 10);
    }
  }

  lemma {:induction false} DigitRunDigits(d: string, rest: string)
    requires forall i :: 0 <= i < |d| ==> '0' <= d[i] <= '9'
    requires rest == [] || !('0' <= rest[0] <= '9')
    ensures DigitRun(d + rest) == |d|
  {
    if d != [] {
      assert (d + rest)[1..] == d[1..] + rest;
      DigitRunDigits(d[1..], rest);
    } else {
      assert d + rest == rest;
    }
  }

  /** What ends a value in stringify's output. */
  predicate Delimited(rest: string)
  {
    rest != [] && (rest[0] == ',' || rest[0] == '}')
  }

  lemma ParseNaturalText(m: nat, rest: string)
    requires Delimited(rest)
    ensures ParseNatural(Decimal(m) + rest) == Some((m, rest))
  {
    var d := Decimal(m);
    var t := d + rest;
    DigitRunDigits(d, rest);
    DecimalRoundTrip(m);
    assert t[..|d|] == d && t[|d|..] == rest;
  }

  lemma ParseNumberText(n: int, rest: string)
    requires Delimited(rest)
    ensures ParseNumber(NumberText(n) + rest) == Some((n, rest))
  {
    if n < 0 {
      ParseNegativeText(-n, rest);
    } else {
      ParseNonNegativeText(n, rest);
    }
  }

  lemma ParseNegativeText(m: nat, rest: string)
    requires Delimited(rest)
    ensures ParseNumber("-" + Decimal(m) + rest) == Some((-(m as int), rest))
  {
    var u := Decimal(m) + rest;
    Associative("-", Decimal(m), rest);
    DropFirst('-', u);
    ParseNaturalText(m, rest);
  }

  lemma ParseNonNegativeText(m: nat, rest: string)
    requires Delimited(rest)
    ensures ParseNumber(Decimal(m) + rest) == Some((m, rest))
  {
    var d := Decimal(m);
    assert (d + rest)[0] == d[0];
    ParseNaturalText(m, rest);
  }

  lemma ParseScalar(v: Scalar, rest: string)
    requires Delimited(rest)
    ensures ParseValue(ScalarText(v) + rest) == Some((v, rest))
  {
    var s := ScalarText(v) + rest;
    assert !IsJsonSpace(s[0]) by {
      match v
      case Str(x) => assert s[0] == '"';
      case Num(n) => assert s[0] == '-' || '0' <= s[0] <= '9';
      case Bool(b) => assert s[0] == 't' || s[0] == 'f';
    }
    assert SkipSpace(s) == s;
    match v
    case Str(x) => ParseTokenStr(x, rest);
    case Num(n) => ParseTokenNum(n, rest);
    case Bool(b) => ParseTokenBool(b, rest);
  }

  lemma ParseTokenStr(x: string, rest: string)
    ensures ParseToken(Quote(x) + rest) == Some((Str(x), rest))
  {
    assert (Quote(x) + rest)[0] == '"';
    ParseQuote(x, rest);
  }

  lemma ParseTokenNum(n: int, rest: string)
    requires Delimited(rest)
    ensures ParseToken(NumberText(n) + rest) == Some((Num(n), rest))
  {
    var s := NumberText(n) + rest;
    assert s[0] == '-' || '0' <= s[0] <= '9';
    ParseNumberText(n, rest);
  }

  lemma ParseTokenBool(b: bool, rest: string)
    ensures ParseToken(ScalarText(Bool(b)) + rest) == Some((Bool(b), rest))
  {
    var s := ScalarText(Bool(b)) + rest;
    if b {
      assert s[0] == 't' && s[1] == 'r' && s[2] == 'u' && s[3] == 'e' && s[4..] == rest;
    } else {
      assert s[0] == 'f' && s[1] == 'a' && s[2] == 'l' && s[3] == 's' && s[4] == 'e' && s[5..] == rest;
    }
  }

  lemma ParseMemberText(m: Member, tail: string)
    requires Delimited(tail)
    ensures ParseMember(MemberText(m) + tail) == Some((m, tail))
  {
    var t := ":" + (ScalarText(m.1) + tail);
    MemberTextShape(m, tail);
    QuoteReads(m.0, t);
    ColonReads(m.1, tail);
    ParseMemberOf(Quote(m.0) + t, m.0, t, m.1, tail);
  }

  lemma MemberTextShape(m: Member, tail: string)
    ensures MemberText(m) + tail == Quote(m.0) + (":" + (ScalarText(m.1) + tail))
  {
    var q, v := Quote(m.0), ScalarText(m.1);
    Associative(q + ":", v, tail);
    Associative(q, ":", v + tail);
  }

  lemma QuoteReads(k: string, t: string)
    ensures SkipSpace(Quote(k) + t) == Quote(k) + t
    ensures ParseString(Quote(k) + t) == Some((k, t))
  {
    assert (Quote(k) + t)[0] == '"';
    ParseQuote(k, t);
  }

  lemma ColonReads(v: Scalar, tail: string)
    requires Delimited(tail)
    ensures var t := ":" + (ScalarText(v) + tail);
      t != [] && t[0] == ':' && SkipSpace(t) == t && ParseValue(t[1..]) == Some((v, tail)) &&
      SkipSpace(tail) == tail
  {
    var t := ":" + (ScalarText(v) + tail);
    assert t[1..] == ScalarText(v) + tail;
    ParseScalar(v, tail);
  }

  /** ParseMember, given what its parts read. */
  lemma ParseMemberOf(s: string, k: string, t: string, v: Scalar, tail: string)
    requires SkipSpace(s) == s && ParseString(s) == Some((k, t))
    requires t != [] && t[0] == ':' && SkipSpace(t) == t
    requires ParseValue(t[1..]) == Some((v, tail)) && SkipSpace(tail) == tail
    ensures ParseMember(s) == Some(((k, v), tail))
  {
  }

  /** The text of the members from position i on, each followed by what
      ends it. */
  lemma MembersTextSplit(o: seq<Member>, i: nat, rest: string)
    requires i < |o|
    ensures MembersText(o[i..]) + "}" + rest == MemberText(o[i]) + MembersTail(o, i, rest)
  {
    assert o[i..][1..] == o[i + 1..];
  }

  function MembersTail(o: seq<Member>, i: nat, rest: string): (r: string)
    requires i < |o|
    ensures Delimited(r)
  {
    if i + 1 < |o| then "," + (MembersText(o[i + 1..]) + "}" + rest) else "}" + rest
  }

  /** ParseMembers after a member that '}' closes. */
  lemma ParseMembersLast(s: string, acc: Object, m: Member, rest: string)
    requires ParseMember(s) == Some((m, "}" + rest))
    ensures ParseMembers(s, acc) == Some((Put(acc, m.0, m.1), rest))
  {
    DropFirst('}', rest);
  }

  /** ParseMembers after a member that ',' follows. */
  lemma ParseMembersMore(s: string, acc: Object, m: Member, u: string)
    requires ParseMember(s) == Some((m, "," + u))
    ensures ParseMembers(s, acc) == ParseMembers(u, Put(acc, m.0, m.1))
  {
    DropFirst(',', u);
  }

  /** Assigning the next member onto those before it appends it. */
  lemma PutNext(o: Object, i: nat)
    requires i < |o|
    ensures Put(o[..i], o[i].0, o[i].1) == o[..i + 1]
  {
    assert forall j :: 0 <= j < i ==> o[..i][j].0 != o[i].0;
    LookupMeaning(o[..i], o[i].0);
    PutMeaning(o[..i], o[i].0, o[i].1);
  }

  /** One member of the text read back: ParseMembers moves on to the
      next member, or stops after the last one. */
  lemma ParseMembersStep(o: Object, i: nat, rest: string)
    requires i < |o|
    ensures ParseMembers(MembersText(o[i..]) + "}" + rest, o[..i]) ==
      if i + 1 < |o| then ParseMembers(MembersText(o[i + 1..]) + "}" + rest, o[..i + 1])
      else Some((o[..i + 1], rest))
  {
    var s := MembersText(o[i..]) + "}" + rest;
    var tail := MembersTail(o, i, rest);
    MembersTextSplit(o, i, rest);
    ParseMemberText(o[i], tail);
    PutNext(o, i);
    if i + 1 < |o| {
      ParseMembersMore(s, o[..i], o[i], MembersText(o[i + 1..]) + "}" + rest);
    } else {
      ParseMembersLast(s, o[..i], o[i], rest);
    }
  }

  /** The members from position i on read back, onto the ones before it. */
  lemma {:induction false} ParseMembersText(o: Object, i: nat, rest: string)
    requires i < |o|
    ensures ParseMembers(MembersText(o[i..]) + "}" + rest, o[..i]) == Some((o, rest))
    decreases |o| - i
  {
    ParseMembersStep(o, i, rest);
    if i + 1 < |o| {
      ParseMembersText(o, i + 1, rest);
    } else {
      assert o[..i + 1] == o;
    }
  }

  /** JSON.parse inverts JSON.stringify on every modelled object. */
  lemma ParseStringify(o: Object)
    ensures Parse(Stringify(o)) == Some(o)
  {
    if o == [] {
      ParseEmptyObject();
    } else {
      var body := MembersText(o) + "}";
      assert Stringify(o) == ['{'] + body;
      MembersStart(o);
      ParseAllMembers(o);
      ParseObjectOf(body, o);
    }
  }

  lemma ParseEmptyObject()
    ensures Parse(Stringify(Empty)) == Some(Empty)
  {
    assert Stringify(Empty) == "{}";
  }

  lemma MembersStart(o: seq<Member>)
    requires o != []
    ensures (MembersText(o) + "}")[0] == '"'
  {
  }

  lemma ParseAllMembers(o: Object)
    requires o != []
    ensures ParseMembers(MembersText(o) + "}", Empty) == Some((o, []))
  {
    ParseMembersText(o, 0, []);
    assert o[0..] == o && o[..0] == Empty;
    assert MembersText(o) + "}" + [] == MembersText(o) + "}";
  }

  /** Parse, given what the members after '{' read. */
  lemma ParseObjectOf(body: string, o: Object)
    requires body != [] && body[0] == '"'
    requires ParseMembers(body, Empty) == Some((o, []))
    ensures Parse(['{'] + body) == Some(o)
  {
    var s := ['{'] + body;
    DropFirst('{', body);
    NoLeadingSpace(s);
    NoLeadingSpace(body);
    assert ParseObject(s) == Some((o, []));
  }

  lemma NoLeadingSpace(s: string)
    requires s != [] && !IsJsonSpace(s[0])
    ensures SkipSpace(s) == s
  {
  }
}
