/** The part of Python's `json.dumps` the source uses: an object whose values are
    strings, with the default separators `", "` and `": "`, keys in insertion
    order, and the default `ensure_ascii=True` string escaping (sections 4 and 7
    of RFC 8259). A parser for exactly that layout is the model's inverse. */
module Json {
  import opened Wrappers

  predicate IsPrintableAscii(c: char) {
    ' ' <= c <= '~'
  }

  predicate IsPrintableText(s: string) {
    forall i :: 0 <= i < |s| ==> IsPrintableAscii(s[i])
  }

  // ----- Hexadecimal digits of \uXXXX escapes

  /** A lower-case hexadecimal digit, as Python's `'{0:04x}'` writes it. */
  function HexDigit(d: nat): (c: char)
    requires d < 16
    ensures IsPrintableAscii(c)
  {
    if d < 10 then ('0' as int + d) as char else ('a' as int + d - 10) as char
  }

  /** The value of a hexadecimal digit of either case (RFC 8259 section 7). */
  function HexValue(c: char): (r: Option<nat>)
    ensures r.Some? ==> r.value < 16
  {
    if '0' <= c <= '9' then Some(c as int - '0' as int)
    else if 'a' <= c <= 'f' then Some(c as int - 'a' as int + 10)
    else if 'A' <= c <= 'F' then Some(c as int - 'A' as int + 10)
    else None
  }

  /** Four hexadecimal digits, most significant first. */
  function Hex4(u: nat): (r: string)
    requires u < 0x10000
    ensures |r| == 4
  {
    [HexDigit(u / 0x1000), HexDigit(u / 0x100 % 0x10), HexDigit(u / 0x10 % 0x10), HexDigit(u % 0x10)]
  }

  function ParseHex4(t: string): (r: Option<nat>)
    requires |t| == 4
    ensures r.Some? ==> r.value < 0x10000
  {
    match (HexValue(t[0]), HexValue(t[1]), HexValue(t[2]), HexValue(t[3]))
    case (Some(a), Some(b), Some(c), Some(d)) => Some(a * 0x1000 + b * 0x100 + c * 0x10 + d)
    case _ => None
  }

  lemma HexValueDigit(d: nat)
    requires d < 16
    ensures HexValue(HexDigit(d)) == Some(d)
  {
  }

  /** The four digits of u, weighted by their positions, add up to u. */
  lemma HexDigitsSum(u: nat)
    requires u < 0x10000
    ensures u == (u / 0x1000) * 0x1000 + (u / 0x100 % 0x10) * 0x100 + (u / 0x10 % 0x10) * 0x10 + u % 0x10
  {
    var q1 := u / 0x10;
    var q2 := q1 / 0x10;
    var q3 := q2 / 0x10;
    assert u == 0x10 * q1 + u % 0x10;
    assert q1 == 0x10 * q2 + q1 % 0x10;
    assert q2 == 0x10 * q3 + q2 % 0x10;
    assert u == 0x100 * q2 + 0x10 * (q1 % 0x10) + u % 0x10;
    assert u / 0x100 == q2;
    assert u == 0x1000 * q3 + 0x100 * (q2 % 0x10) + 0x10 * (q1 % 0x10) + u % 0x10;
    assert u / 0x1000 == q3;
  }

  lemma ParseHex4Hex4(u: nat)
    requires u < 0x10000
    ensures ParseHex4(Hex4(u)) == Some(u)
  {
    HexValueDigit(u / 0x1000);
    HexValueDigit(u / 0x100 % 0x10);
    HexValueDigit(u / 0x10 % 0x10);
    HexValueDigit(u % 0x10);
    HexDigitsSum(u);
  }

  // ----- Escaping (Python's `encode_basestring_ascii`)

  /** The letter of the two-character escape json.dumps uses for `"`, `\` and
      the five control characters that have one. */
  function ShortEscape(c: char): (r: Option<char>)
    ensures r.Some? ==> IsPrintableAscii(r.value) && r.value != 'u'
  {
    if c == '"' then Some('"')
    else if c == '\\' then Some('\\')
    else if c as int == 0x08 then Some('b')
    else if c as int == 0x0C then Some('f')
    else if c == '\n' then Some('n')
    else if c == '\r' then Some('r')
    else if c == '\t' then Some('t')
    else None
  }

  /** The character a two-character escape stands for (RFC 8259 section 7,
      which also allows `\/`). */
  function ShortUnescape(e: char): (r: Option<char>)
  {
    if e == '"' then Some('"')
    else if e == '\\' then Some('\\')
    else if e == '/' then Some('/')
    else if e == 'b' then Some('\U{8}')
    else if e == 'f' then Some('\U{C}')
    else if e == 'n' then Some('\n')
    else if e == 'r' then Some('\r')
    else if e == 't' then Some('\t')
    else None
  }

  lemma ShortUnescapeEscape(c: char)
    requires ShortEscape(c).Some?
    ensures ShortUnescape(ShortEscape(c).value) == Some(c)
  {
  }

  /** `\uXXXX` for a 16-bit code unit. */
  function UnicodeEscape(u: nat): (r: string)
    requires u < 0x10000
    ensures |r| == 6 && r[..2] == "\\u" && r[2..] == Hex4(u)
  {
    ['\\', 'u'] + Hex4(u)
  }

  /** The high and low UTF-16 surrogates of a character above U+FFFF. */
  function HighSurrogate(n: nat): (u: nat)
    requires 0x10000 <= n < 0x110000
    ensures 0xD800 <= u < 0xDC00
  {
    0xD800 + (n - 0x10000) / 0x400
  }

  function LowSurrogate(n: nat): (u: nat)
    requires 0x10000 <= n < 0x110000
    ensures 0xDC00 <= u < 0xE000
  {
    0xDC00 + (n - 0x10000) % 0x400
  }

  /** The code point a surrogate pair stands for. */
  function CombineSurrogates(hi: nat, lo: nat): (n: nat)
    requires 0xD800 <= hi < 0xDC00 && 0xDC00 <= lo < 0xE000
    ensures 0x10000 <= n < 0x110000
  {
    0x10000 + (hi - 0xD800) * 0x400 + (lo - 0xDC00)
  }

  lemma CombineSplitSurrogates(n: nat)
    requires 0x10000 <= n < 0x110000
    ensures CombineSurrogates(HighSurrogate(n), LowSurrogate(n)) == n
  {
  }

  /** The text json.dumps writes for one character of a string: printable
      ASCII other than `"` and `\` stands for itself; `"`, `\`, backspace, form
      feed, newline, carriage return and tab get a two-character escape; any
      other character below U+10000 becomes `\uXXXX` in lower-case hex; a
      character above becomes the two `\uXXXX` of its UTF-16 surrogate pair. */
  function EscapeChar(c: char): (r: string)
    ensures IsPrintableText(r)
    ensures |r| == 1 <==> IsPrintableAscii(c) && c != '"' && c != '\\'
    ensures |r| == 1 ==> r == [c]
  {
    var n := c as int;
    if ShortEscape(c).Some? then ['\\', ShortEscape(c).value]
    else if IsPrintableAscii(c) then [c]
    else if n < 0x10000 then UnicodeEscape(n)
    else UnicodeEscape(HighSurrogate(n)) + UnicodeEscape(LowSurrogate(n))
  }

  /** The escaped body of a JSON string, character by character. */
  function Escape(s: string): (r: string)
    ensures IsPrintableText(r)
    ensures |r| >= |s|
    decreases |s|
  {
    if s == [] then [] else EscapeChar(s[0]) + Escape(s[1..])
  }

  /** Text that json.dumps leaves unchanged: printable ASCII without `"` or `\`. */
  predicate IsPlain(s: string) {
    forall i :: 0 <= i < |s| ==> IsPrintableAscii(s[i]) && s[i] != '"' && s[i] != '\\'
  }

  lemma {:induction false} EscapePlain(s: string)
    requires IsPlain(s)
    ensures Escape(s) == s
    decreases |s|
  {
    if s != [] {
      EscapePlain(s[1..]);
      assert s == [s[0]] + s[1..];
    }
  }

  /** A JSON string literal as json.dumps writes it. */
  function Quote(s: string): (r: string)
    ensures |r| == |Escape(s)| + 2
  {
    "\"" + Escape(s) + "\""
  }

  // ----- Objects

  /** One `"key": "value"` member. */
  function Member(key: string, value: string): string {
    Quote(key) + ": " + Quote(value)
  }

  /** Members joined by the item separator `", "`. */
  function Members(m: seq<(string, string)>): string
    decreases |m|
  {
    if |m| == 0 then ""
    else if |m| == 1 then Member(m[0].0, m[0].1)
    else Member(m[0].0, m[0].1) + ", " + Members(m[1..])
  }

  /** `json.dumps` of an object with string values, in insertion order. */
  function DumpsObject(m: seq<(string, string)>): string {
    "{" + Members(m) + "}"
  }

  lemma PrintableConcat(a: string, b: string)
    requires IsPrintableText(a) && IsPrintableText(b)
    ensures IsPrintableText(a + b)
  {
  }

  lemma MemberPrintable(key: string, value: string)
    ensures IsPrintableText(Member(key, value))
  {
    PrintableConcat("\"" + Escape(key) + "\"", ": ");
    PrintableConcat("\"" + Escape(key) + "\"" + ": ", Quote(value));
  }

  lemma {:induction false} MembersPrintable(m: seq<(string, string)>)
    ensures IsPrintableText(Members(m))
    decreases |m|
  {
    if |m| > 0 {
      MemberPrintable(m[0].0, m[0].1);
      if |m| > 1 {
        MembersPrintable(m[1..]);
        PrintableConcat(Member(m[0].0, m[0].1), ", ");
        PrintableConcat(Member(m[0].0, m[0].1) + ", ", Members(m[1..]));
      }
    }
  }

  /** Under ensure_ascii, json.dumps writes only printable ASCII. */
  lemma DumpsObjectPrintable(m: seq<(string, string)>)
    ensures IsPrintableText(DumpsObject(m))
  {
    MembersPrintable(m);
    PrintableConcat("{", Members(m));
    PrintableConcat("{" + Members(m), "}");
  }

  // ----- Parsing (model only: the inverse the round-trip lemmas need)

  /** One character of a string body (RFC 8259 section 7): an unescaped
      character other than `"`, `\` and the controls, or an escape sequence.
      It returns the character and the number of text characters it used. */
  function ParseChar(t: string): (r: Option<(char, nat)>)
    requires |t| > 0
    ensures r.Some? ==> 0 < r.value.1 <= |t|
  {
    if t[0] == '\\' then ParseEscape(t)
    else if t[0] == '"' || t[0] as int < 0x20 then None
    else Some((t[0], 1))
  }

  /** A backslash escape: a two-character one, or a `\u` escape. */
  function ParseEscape(t: string): (r: Option<(char, nat)>)
    requires |t| > 0
    ensures r.Some? ==> 0 < r.value.1 <= |t|
  {
    if |t| < 2 then None
    else if t[1] == 'u' then ParseUnicodeEscape(t)
    else match ShortUnescape(t[1])
      case None => None
      case Some(c) => Some((c, 2))
  }

  /** `\uXXXX`, or `\uXXXX\uXXXX` for a surrogate pair. A lone surrogate is
      refused, since it is no character. */
  function ParseUnicodeEscape(t: string): (r: Option<(char, nat)>)
    ensures r.Some? ==> 0 < r.value.1 <= |t|
  {
    if |t| < 6 then None
    else match ParseHex4(t[2..6])
      case None => None
      case Some(u) =>
        if 0xD800 <= u < 0xDC00 then ParseLowSurrogate(u, t[6..])
        else if 0xDC00 <= u < 0xE000 then None
        else Some((u as char, 6))
  }

  /** The `\uXXXX` of a low surrogate after the high surrogate hi. */
  function ParseLowSurrogate(hi: nat, t: string): (r: Option<(char, nat)>)
    requires 0xD800 <= hi < 0xDC00
    ensures r.Some? ==> r.value.1 == 12 && |t| >= 6
  {
    if |t| < 6 || t[..2] != "\\u" then None
    else match ParseHex4(t[2..6])
      case None => None
      case Some(lo) =>
        if 0xDC00 <= lo < 0xE000 then Some((CombineSurrogates(hi, lo) as char, 12))
        else None
  }

  /** A string body up to and including its closing quote: the decoded text and
      the number of characters used. */
  function ParseStringBody(t: string): (r: Option<(string, nat)>)
    ensures r.Some? ==> 0 < r.value.1 <= |t|
    decreases |t|
  {
    if |t| == 0 then None
    else if t[0] == '"' then Some(([], 1))
    else
      match ParseChar(t)
      case None => None
      case Some((c, n)) =>
        match ParseStringBody(t[n..])
        case None => None
        case Some((s, k)) => Some(([c] + s, n + k))
  }

  /** One `"key": "value"` member at the start of the text, and the number of
      characters it used. */
  function ParseMember(t: string): (r: Option<((string, string), nat)>)
    ensures r.Some? ==> 0 < r.value.1 <= |t|
  {
    if |t| == 0 || t[0] != '"' then None
    else
      var key := ParseStringBody(t[1..]);
      if key.None? then None
      else
        var i := 1 + key.value.1;
        if |t| < i + 3 || t[i..i + 3] != ": \"" then None
        else
          var value := ParseStringBody(t[i + 3..]);
          if value.None? then None
          else Some(((key.value.0, value.value.0), i + 3 + value.value.1))
  }

  /** Members separated by `", "`, then the closing `}` as the last character. */
  function ParseMembers(t: string): (r: Option<seq<(string, string)>>)
    decreases |t|
  {
    match ParseMember(t)
    case None => None
    case Some((kv, n)) =>
      var rest := t[n..];
      if rest == "}" then Some([kv])
      else if |rest| >= 2 && rest[..2] == ", " then
        match ParseMembers(rest[2..])
        case None => None
        case Some(more) => Some([kv] + more)
      else None
  }

  /** An object exactly as json.dumps lays it out. */
  function ParseObject(t: string): (r: Option<seq<(string, string)>>)
  {
    if t == "{}" then Some([])
    else if |t| > 0 && t[0] == '{' then ParseMembers(t[1..])
    else None
  }

  // ----- Round trips

  lemma ParseShortEscape(c: char, rest: string)
    requires ShortEscape(c).Some?
    ensures ParseChar(EscapeChar(c) + rest) == Some((c, 2))
  {
    var t := EscapeChar(c) + rest;
    assert t[0] == '\\' && t[1] == ShortEscape(c).value;
    ShortUnescapeEscape(c);
  }

  lemma ParseBmpEscape(n: nat, rest: string)
    requires n < 0x10000 && !(0xD800 <= n < 0xE000)
    ensures ParseUnicodeEscape(UnicodeEscape(n) + rest) == Some((n as char, 6))
  {
    var t := UnicodeEscape(n) + rest;
    assert t[2..6] == Hex4(n);
    ParseHex4Hex4(n);
  }

  lemma ParseLowSurrogateOf(n: nat, rest: string)
    requires 0x10000 <= n < 0x110000
    ensures ParseLowSurrogate(HighSurrogate(n), UnicodeEscape(LowSurrogate(n)) + rest) == Some((n as char, 12))
  {
    var t := UnicodeEscape(LowSurrogate(n)) + rest;
    assert t[..2] == "\\u";
    assert t[2..6] == Hex4(LowSurrogate(n));
    ParseHex4Hex4(LowSurrogate(n));
    CombineSplitSurrogates(n);
  }

  lemma ParsePairEscape(n: nat, rest: string)
    requires 0x10000 <= n < 0x110000
    ensures ParseUnicodeEscape(UnicodeEscape(HighSurrogate(n)) + UnicodeEscape(LowSurrogate(n)) + rest) == Some((n as char, 12))
  {
    var lo := UnicodeEscape(LowSurrogate(n)) + rest;
    var t := UnicodeEscape(HighSurrogate(n)) + lo;
    assert UnicodeEscape(HighSurrogate(n)) + UnicodeEscape(LowSurrogate(n)) + rest == t;
    assert t[2..6] == Hex4(HighSurrogate(n));
    assert t[6..] == lo;
    ParseHex4Hex4(HighSurrogate(n));
    ParseLowSurrogateOf(n, rest);
  }

  /** The parser reads back one escaped character, whatever follows it. */
  lemma ParseEscapeChar(c: char, rest: string)
    ensures ParseChar(EscapeChar(c) + rest) == Some((c, |EscapeChar(c)|))
  {
    var n := c as int;
    if ShortEscape(c).Some? {
      ParseShortEscape(c, rest);
    } else if IsPrintableAscii(c) {
      assert (EscapeChar(c) + rest)[0] == c;
    } else if n < 0x10000 {
      ParseBmpEscape(n, rest);
      assert (EscapeChar(c) + rest)[1] == 'u';
    } else {
      ParsePairEscape(n, rest);
      assert (EscapeChar(c) + rest)[1] == 'u';
    }
  }

  /** The parser reads back an escaped string and its closing quote. */
  lemma {:induction false} ParseEscaped(s: string, rest: string)
    ensures ParseStringBody(Escape(s) + "\"" + rest) == Some((s, |Escape(s)| + 1))
    decreases |s|
  {
    var t := Escape(s) + "\"" + rest;
    if s == [] {
      assert t[0] == '"';
    } else {
      var e := EscapeChar(s[0]);
      var tail := Escape(s[1..]) + "\"" + rest;
      assert t == e + tail;
      ParseEscapeChar(s[0], tail);
      assert t[|e|..] == tail;
      ParseEscaped(s[1..], rest);
      assert [s[0]] + s[1..] == s;
    }
  }

  /** What ParseMember needs: a key's body, the key separator, a value's body. */
  lemma ParseMemberSteps(t: string, key: string, value: string, a: nat, b: nat)
    requires |t| > 0 && t[0] == '"'
    requires ParseStringBody(t[1..]) == Some((key, a))
    requires |t| >= 1 + a + 3 && t[1 + a..1 + a + 3] == ": \""
    requires ParseStringBody(t[1 + a + 3..]) == Some((value, b))
    ensures ParseMember(t) == Some(((key, value), 1 + a + 3 + b))
  {
  }

  /** Where the parts of a member sit in its text t, for the escaped key ek and
      the escaped value ev. */
  predicate MemberLayout(t: string, ek: string, ev: string, tail: string) {
    var a := |ek| + 1;
    && |t| > 1 + a + 3 && t[0] == '"'
    && t[1..] == ek + "\"" + (": \"" + ev + "\"" + tail)
    && t[1 + a..1 + a + 3] == ": \""
    && t[1 + a + 3..] == ev + "\"" + tail
  }

  lemma MemberLayoutOf(t: string, ek: string, ev: string, tail: string)
    requires t == "\"" + ek + "\"" + ": " + "\"" + ev + "\"" + tail
    ensures MemberLayout(t, ek, ev, tail)
  {
    var a := |ek| + 1;
    var r1 := ": \"" + ev + "\"" + tail;
    assert t == "\"" + ek + "\"" + r1;
    assert t[1 + a..] == r1;
  }

  lemma MemberText(key: string, value: string, tail: string)
    ensures Member(key, value) + tail == "\"" + Escape(key) + "\"" + ": " + "\"" + Escape(value) + "\"" + tail
    ensures |Member(key, value)| == |Escape(key)| + |Escape(value)| + 6
  {
  }

  /** A member text t whose escaped key ek and value ev parse back to key and value. */
  predicate MemberParses(t: string, ek: string, ev: string, tail: string, key: string, value: string) {
    && MemberLayout(t, ek, ev, tail)
    && |t| == |ek| + |ev| + 6 + |tail|
    && ParseStringBody(ek + "\"" + (": \"" + ev + "\"" + tail)) == Some((key, |ek| + 1))
    && ParseStringBody(ev + "\"" + tail) == Some((value, |ev| + 1))
  }

  lemma MemberParsesOf(key: string, value: string, tail: string)
    ensures MemberParses(Member(key, value) + tail, Escape(key), Escape(value), tail, key, value)
  {
    var ek, ev := Escape(key), Escape(value);
    MemberText(key, value, tail);
    MemberLayoutOf(Member(key, value) + tail, ek, ev, tail);
    ParseEscaped(key, ": \"" + ev + "\"" + tail);
    ParseEscaped(value, tail);
  }

  /** ParseMember on a member text whose key and value bodies parse back. */
  lemma ParseMemberLayout(t: string, ek: string, ev: string, tail: string, key: string, value: string)
    requires MemberParses(t, ek, ev, tail, key, value)
    ensures ParseMember(t) == Some(((key, value), |t| - |tail|))
  {
    ParseMemberSteps(t, key, value, |ek| + 1, |ev| + 1);
  }

  /** The parser reads back one member, whatever follows it. */
  lemma ParseMemberOf(key: string, value: string, tail: string)
    ensures ParseMember(Member(key, value) + tail) == Some(((key, value), |Member(key, value)|))
  {
    MemberParsesOf(key, value, tail);
    ParseMemberLayout(Member(key, value) + tail, Escape(key), Escape(value), tail, key, value);
  }

  lemma ParseMembersLast(t: string, kv: (string, string), n: nat)
    requires ParseMember(t) == Some((kv, n)) && t[n..] == "}"
    ensures ParseMembers(t) == Some([kv])
  {
  }

  lemma ParseMembersNext(t: string, kv: (string, string), n: nat, more: seq<(string, string)>)
    requires ParseMember(t) == Some((kv, n))
    requires |t[n..]| >= 2 && t[n..][..2] == ", " && ParseMembers(t[n..][2..]) == Some(more)
    ensures ParseMembers(t) == Some([kv] + more)
  {
    assert t[n..] != "}";
  }

  /** Where the separator and the other members sit, for any text of the first. */
  lemma SeparatorLayout(t: string, first: string, others: string)
    requires t == first + (", " + others + "}")
    ensures var n := |first|; |t[n..]| >= 2 && t[n..][..2] == ", " && t[n..][2..] == others + "}"
  {
    assert t[|first|..] == ", " + others + "}";
  }

  /** Parsing the members' text with the closing brace gives the members back. */
  lemma {:induction false} ParseMembersOf(m: seq<(string, string)>)
    requires |m| > 0
    ensures ParseMembers(Members(m) + "}") == Some(m)
    decreases |m|
  {
    var key, value := m[0].0, m[0].1;
    var t := Members(m) + "}";
    var n := |Member(key, value)|;
    if |m| == 1 {
      ParseMemberOf(key, value, "}");
      assert t[n..] == "}";
      ParseMembersLast(t, (key, value), n);
      assert [(key, value)] == m;
    } else {
      var tail := ", " + Members(m[1..]) + "}";
      assert t == Member(key, value) + tail;
      SeparatorLayout(t, Member(key, value), Members(m[1..]));
      ParseMemberOf(key, value, tail);
      ParseMembersOf(m[1..]);
      ParseMembersNext(t, (key, value), n, m[1..]);
      assert [(key, value)] + m[1..] == m;
    }
  }

  /** Parsing what json.dumps wrote gives the object back. */
  lemma ParseDumpsObject(m: seq<(string, string)>)
    ensures ParseObject(DumpsObject(m)) == Some(m)
  {
    var t := DumpsObject(m);
    if |m| > 0 {
      var body := Members(m) + "}";
      assert t == "{" + body && t[1..] == body;
      ParseMembersOf(m);
      assert t != "{}" by {
        MemberText(m[0].0, m[0].1, "");
        assert |Members(m)| >= |Member(m[0].0, m[0].1)| >= 6;
      }
    }
  }

  /** json.dumps is injective on string-valued objects. */
  lemma DumpsObjectInjective(m1: seq<(string, string)>, m2: seq<(string, string)>)
    requires DumpsObject(m1) == DumpsObject(m2)
    ensures m1 == m2
  {
    ParseDumpsObject(m1);
    ParseDumpsObject(m2);
  }
}
