/** Base64 with the standard alphabet and `=` padding (section 4 of RFC 4648),
    as `base64.b64encode` writes it, and a strict decoder as its inverse.

    The encoding is taken in two layers: bytes become a sequence of symbols
    (6-bit values 0..63, and PadSymbol for `=`), and each symbol becomes one
    character of the alphabet. */
module Base64 {
  import opened Wrappers
  import opened Bytes

  /** A character of the 64-letter alphabet (padding excluded). */
  predicate IsAlphabetChar(c: char) {
    'A' <= c <= 'Z' || 'a' <= c <= 'z' || '0' <= c <= '9' || c == '+' || c == '/'
  }

  /** The value of an alphabet character (table 1 of RFC 4648). */
  function Value(c: char): (v: nat)
    requires IsAlphabetChar(c)
    ensures v < 64
  {
    if 'A' <= c <= 'Z' then c as int - 'A' as int
    else if 'a' <= c <= 'z' then c as int - 'a' as int + 26
    else if '0' <= c <= '9' then c as int - '0' as int + 52
    else if c == '+' then 62
    else 63
  }

  /** The alphabet character of a 6-bit value. */
  function Char(v: nat): (c: char)
    requires v < 64
    ensures IsAlphabetChar(c) && Value(c) == v
  {
    if v < 26 then ('A' as int + v) as char
    else if v < 52 then ('a' as int + v - 26) as char
    else if v < 62 then ('0' as int + v - 52) as char
    else if v == 62 then '+'
    else '/'
  }

  lemma CharOfValue(c: char)
    requires IsAlphabetChar(c)
    ensures Char(Value(c)) == c
  {
  }

  // ----- Symbols: 6-bit values, and PadSymbol for the `=` padding character

  const PadSymbol: byte := 64

  predicate IsSymbol(v: byte) {
    v <= PadSymbol
  }

  /** The character written for a symbol. */
  function SymbolChar(v: byte): (c: char)
    requires IsSymbol(v)
    ensures c == '=' || IsAlphabetChar(c)
    ensures (c == '=') <==> v == PadSymbol
  {
    if v == PadSymbol then '=' else Char(v as int)
  }

  /** The symbol a character stands for, if it is in the alphabet or is `=`. */
  function CharSymbol(c: char): (r: Option<byte>)
    ensures r.Some? <==> c == '=' || IsAlphabetChar(c)
    ensures r.Some? ==> IsSymbol(r.value)
  {
    if c == '=' then Some(PadSymbol)
    else if IsAlphabetChar(c) then Some(Value(c) as byte)
    else None
  }

  lemma CharSymbolChar(v: byte)
    requires IsSymbol(v)
    ensures CharSymbol(SymbolChar(v)) == Some(v)
  {
  }

  lemma SymbolCharSymbol(c: char)
    requires CharSymbol(c).Some?
    ensures SymbolChar(CharSymbol(c).value) == c
  {
    if c != '=' {
      SmallByte(Value(c));
      CharOfValue(c);
    }
  }

  /** Symbols to text, one character each. */
  function ToText(vs: seq<byte>): (s: string)
    requires forall i :: 0 <= i < |vs| ==> IsSymbol(vs[i])
    ensures |s| == |vs|
    ensures forall i :: 0 <= i < |vs| ==> s[i] == SymbolChar(vs[i])
  {
    seq(|vs|, i requires 0 <= i < |vs| => SymbolChar(vs[i]))
  }

  /** Text to symbols; fails on a character outside the alphabet and `=`. */
  function FromText(s: string): (r: Option<seq<byte>>)
    ensures r.Some? <==> forall i :: 0 <= i < |s| ==> CharSymbol(s[i]).Some?
    ensures r.Some? ==> |r.value| == |s| && forall i :: 0 <= i < |s| ==> Some(r.value[i]) == CharSymbol(s[i])
  {
    if forall i :: 0 <= i < |s| ==> CharSymbol(s[i]).Some? then
      Some(seq(|s|, i requires 0 <= i < |s| && CharSymbol(s[i]).Some? => CharSymbol(s[i]).value))
    else None
  }

  lemma FromToText(vs: seq<byte>)
    requires forall i :: 0 <= i < |vs| ==> IsSymbol(vs[i])
    ensures FromText(ToText(vs)) == Some(vs)
  {
    var s := ToText(vs);
    forall i | 0 <= i < |s|
      ensures CharSymbol(s[i]) == Some(vs[i])
    {
      CharSymbolChar(vs[i]);
    }
    assert FromText(s).value == vs;
  }

  lemma ToFromText(s: string)
    requires FromText(s).Some?
    ensures ToText(FromText(s).value) == s
  {
    var vs := FromText(s).value;
    forall i | 0 <= i < |s|
      ensures SymbolChar(vs[i]) == s[i]
    {
      SymbolCharSymbol(s[i]);
    }
  }

  // ----- Bytes to symbols and back

  /** Three bytes as four 6-bit values. */
  function Split3(b0: byte, b1: byte, b2: byte): (vs: seq<byte>)
    ensures |vs| == 4 && forall i :: 0 <= i < 4 ==> vs[i] < 64
  {
    [b0 >> 2, ((b0 & 3) << 4) | (b1 >> 4), ((b1 & 15) << 2) | (b2 >> 6), b2 & 63]
  }

  /** The symbols of `b64encode`: whole groups of three bytes, then a final group
      of two bytes (three values and one `=`) or one byte (two values and two `=`). */
  function EncodeSymbols(b: seq<byte>): (vs: seq<byte>)
    ensures |vs| == 4 * ((|b| + 2) / 3)
    ensures forall i :: 0 <= i < |vs| ==> IsSymbol(vs[i])
    decreases |b|
  {
    if |b| == 0 then []
    else if |b| == 1 then [b[0] >> 2, (b[0] & 3) << 4, PadSymbol, PadSymbol]
    else if |b| == 2 then [b[0] >> 2, ((b[0] & 3) << 4) | (b[1] >> 4), (b[1] & 15) << 2, PadSymbol]
    else Split3(b[0], b[1], b[2]) + EncodeSymbols(b[3..])
  }

  /** Four 6-bit values joined into three bytes. */
  function Join3(v0: byte, v1: byte, v2: byte, v3: byte): (g: seq<byte>)
    ensures |g| == 3
  {
    [(v0 << 2) | (v1 >> 4), ((v1 & 15) << 4) | (v2 >> 2), ((v2 & 3) << 6) | v3]
  }

  /** The last group of symbols: `xx==` gives one byte, `xxx=` two, `xxxx` three.
      The bits the padding discards must be zero, so only canonical input decodes. */
  function DecodeLastSymbols(vs: seq<byte>): (r: Option<seq<byte>>)
    requires |vs| == 4
    ensures r.Some? ==> 1 <= |r.value| <= 3
  {
    var v0, v1, v2, v3 := vs[0], vs[1], vs[2], vs[3];
    if v0 >= 64 || v1 >= 64 then None
    else if v2 == PadSymbol && v3 == PadSymbol then
      if v1 & 15 == 0 then Some(Join3(v0, v1, 0, 0)[..1]) else None
    else if v2 >= 64 then None
    else if v3 == PadSymbol then
      if v2 & 3 == 0 then Some(Join3(v0, v1, v2, 0)[..2]) else None
    else if v3 >= 64 then None
    else Some(Join3(v0, v1, v2, v3))
  }

  /** Symbols back to bytes: groups of four, `=` only in the last group. */
  function DecodeSymbols(vs: seq<byte>): (r: Option<seq<byte>>)
    decreases |vs|
  {
    if |vs| == 0 then Some([])
    else if |vs| < 4 then None
    else if |vs| == 4 then DecodeLastSymbols(vs)
    else if vs[0] >= 64 || vs[1] >= 64 || vs[2] >= 64 || vs[3] >= 64 then None
    else
      match DecodeSymbols(vs[4..])
      case None => None
      case Some(rest) => Some(Join3(vs[0], vs[1], vs[2], vs[3]) + rest)
  }

  // Bit-level facts: splitting bytes into 6-bit values and joining them back.

  lemma JoinSplit(b0: byte, b1: byte, b2: byte)
    ensures var vs := Split3(b0, b1, b2); Join3(vs[0], vs[1], vs[2], vs[3]) == [b0, b1, b2]
  {
  }

  lemma SplitJoin(v0: byte, v1: byte, v2: byte, v3: byte)
    requires v0 < 64 && v1 < 64 && v2 < 64 && v3 < 64
    ensures var g := Join3(v0, v1, v2, v3); Split3(g[0], g[1], g[2]) == [v0, v1, v2, v3]
  {
  }

  lemma {:induction false} DecodeEncodeSymbols(b: seq<byte>)
    ensures DecodeSymbols(EncodeSymbols(b)) == Some(b)
    decreases |b|
  {
    if |b| == 1 {
      JoinSplit(b[0], 0, 0);
      assert b == Join3(b[0] >> 2, (b[0] & 3) << 4, 0, 0)[..1];
    } else if |b| == 2 {
      JoinSplit(b[0], b[1], 0);
      assert b == Join3(b[0] >> 2, ((b[0] & 3) << 4) | (b[1] >> 4), (b[1] & 15) << 2, 0)[..2];
    } else if |b| >= 3 {
      var g := Split3(b[0], b[1], b[2]);
      var t := EncodeSymbols(b[3..]);
      var vs := EncodeSymbols(b);
      JoinSplit(b[0], b[1], b[2]);
      assert vs == g + t;
      if |b| == 3 {
        assert t == [];
        assert b == [b[0], b[1], b[2]];
      } else {
        assert vs[4..] == t;
        DecodeEncodeSymbols(b[3..]);
        assert b == [b[0], b[1], b[2]] + b[3..];
      }
    }
  }

  lemma EncodeJoinOne(v0: byte, v1: byte)
    requires v0 < 64 && v1 < 64 && v1 & 15 == 0
    ensures EncodeSymbols(Join3(v0, v1, 0, 0)[..1]) == [v0, v1, PadSymbol, PadSymbol]
  {
    var b0 := (v0 << 2) | (v1 >> 4);
    assert Join3(v0, v1, 0, 0)[..1] == [b0];
    assert b0 >> 2 == v0 && (b0 & 3) << 4 == v1;
  }

  lemma EncodeJoinTwo(v0: byte, v1: byte, v2: byte)
    requires v0 < 64 && v1 < 64 && v2 < 64 && v2 & 3 == 0
    ensures EncodeSymbols(Join3(v0, v1, v2, 0)[..2]) == [v0, v1, v2, PadSymbol]
  {
    var b0, b1 := (v0 << 2) | (v1 >> 4), ((v1 & 15) << 4) | (v2 >> 2);
    assert Join3(v0, v1, v2, 0)[..2] == [b0, b1];
    SplitTwoBits(v0, v1, v2);
  }

  lemma SplitTwoBits(v0: byte, v1: byte, v2: byte)
    requires v0 < 64 && v1 < 64 && v2 < 64 && v2 & 3 == 0
    ensures var b0, b1 := (v0 << 2) | (v1 >> 4), ((v1 & 15) << 4) | (v2 >> 2);
      b0 >> 2 == v0 && ((b0 & 3) << 4) | (b1 >> 4) == v1 && (b1 & 15) << 2 == v2
  {
  }

  lemma EncodeDecodeLastSymbols(vs: seq<byte>)
    requires |vs| == 4 && DecodeLastSymbols(vs).Some?
    ensures EncodeSymbols(DecodeLastSymbols(vs).value) == vs
  {
    var b := DecodeLastSymbols(vs).value;
    if vs[2] == PadSymbol && vs[3] == PadSymbol {
      EncodeJoinOne(vs[0], vs[1]);
    } else if vs[3] == PadSymbol {
      EncodeJoinTwo(vs[0], vs[1], vs[2]);
    } else {
      SplitJoin(vs[0], vs[1], vs[2], vs[3]);
      assert EncodeSymbols(b[3..]) == [];
    }
  }

  lemma {:induction false} EncodeDecodeSymbols(vs: seq<byte>)
    requires DecodeSymbols(vs).Some?
    ensures EncodeSymbols(DecodeSymbols(vs).value) == vs
    decreases |vs|
  {
    if |vs| == 4 {
      EncodeDecodeLastSymbols(vs);
    } else if |vs| > 4 {
      var g := Join3(vs[0], vs[1], vs[2], vs[3]);
      var rest := DecodeSymbols(vs[4..]).value;
      SplitJoin(vs[0], vs[1], vs[2], vs[3]);
      EncodeDecodeSymbols(vs[4..]);
      var b := g + rest;
      assert b[..3] == g && b[3..] == rest;
      assert EncodeSymbols(b) == Split3(b[0], b[1], b[2]) + EncodeSymbols(b[3..]);
      assert vs == vs[..4] + vs[4..];
    }
  }

  // ----- The text encoding

  /** `base64.b64encode(data).decode('utf-8')`. */
  function Encode(b: seq<byte>): (s: string)
    ensures |s| == 4 * ((|b| + 2) / 3)
  {
    ToText(EncodeSymbols(b))
  }

  /** Strict decoding of padded Base64 (model only; the source never decodes):
      the length must be a multiple of four, `=` may appear only at the end of
      the last group, and the bits the padding discards must be zero. */
  function Decode(s: string): (r: Option<seq<byte>>)
  {
    match FromText(s)
    case None => None
    case Some(vs) => DecodeSymbols(vs)
  }

  /** Decoding the output returns the input bytes exactly. */
  lemma DecodeEncode(b: seq<byte>)
    ensures Decode(Encode(b)) == Some(b)
  {
    FromToText(EncodeSymbols(b));
    DecodeEncodeSymbols(b);
  }

  /** Whatever decodes is the encoding of its result, so the decoder accepts
      exactly the strings that b64encode can produce. */
  lemma EncodeDecode(s: string)
    requires Decode(s).Some?
    ensures Encode(Decode(s).value) == s
  {
    var vs := FromText(s).value;
    EncodeDecodeSymbols(vs);
    ToFromText(s);
  }

  /** The number of `=` characters that end the encoding of n bytes. */
  function EqualsCount(n: nat): (k: nat)
    ensures k <= 2 && (k == 0 <==> n % 3 == 0)
  {
    (3 - n % 3) % 3
  }

  /** In the symbols of n bytes, exactly the last EqualsCount(n) are padding. */
  lemma {:induction false} EncodeSymbolsPadding(b: seq<byte>)
    ensures var vs := EncodeSymbols(b);
      && EqualsCount(|b|) <= |vs|
      && (forall i :: 0 <= i < |vs| - EqualsCount(|b|) ==> vs[i] < 64)
      && (forall i :: |vs| - EqualsCount(|b|) <= i < |vs| ==> vs[i] == PadSymbol)
    decreases |b|
  {
    if |b| > 2 {
      var vs := EncodeSymbols(b);
      var t := EncodeSymbols(b[3..]);
      EncodeSymbolsPadding(b[3..]);
      assert vs == Split3(b[0], b[1], b[2]) + t;
      assert EqualsCount(|b|) == EqualsCount(|b| - 3);
      forall i | 0 <= i < |vs| - EqualsCount(|b|)
        ensures vs[i] < 64
      {
        if i >= 4 { assert vs[i] == t[i - 4]; }
      }
      forall i | |vs| - EqualsCount(|b|) <= i < |vs|
        ensures vs[i] == PadSymbol
      {
        assert vs[i] == t[i - 4];
      }
    }
  }

  /** The shape of b64encode's output for n input bytes: length 4 * ceil(n / 3),
      alphabet characters followed by a run of exactly EqualsCount(n) `=`. */
  ghost predicate WellFormed(s: string, n: nat) {
    && |s| == 4 * ((n + 2) / 3)
    && EqualsCount(n) <= |s|
    && (forall i :: 0 <= i < |s| - EqualsCount(n) ==> IsAlphabetChar(s[i]))
    && (forall i :: |s| - EqualsCount(n) <= i < |s| ==> s[i] == '=')
  }

  lemma EncodeWellFormed(b: seq<byte>)
    ensures WellFormed(Encode(b), |b|)
  {
    EncodeSymbolsPadding(b);
  }

  /** Every output character is ASCII (and printable), as the QR renderer needs. */
  lemma EncodeIsAscii(b: seq<byte>)
    ensures IsAscii(Encode(b))
  {
    EncodeWellFormed(b);
  }
}
