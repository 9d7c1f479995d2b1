/** Bytes, and the ASCII view of text used where Python calls `str.encode('utf-8')`. */
module Bytes {
  import opened Wrappers

  /** One element of a Python `bytes` object. */
  type byte = bv8

  predicate IsAsciiChar(c: char) {
    c as int < 0x80
  }

  predicate IsAscii(s: string) {
    forall i :: 0 <= i < |s| ==> IsAsciiChar(s[i])
  }

  /** A number below 256 survives the trip through a byte. */
  lemma SmallByte(n: int)
    requires 0 <= n < 256
    ensures (n as byte) as int == n
  {
    // The solver settles the cast quickly once n is confined to sixteen values.
    if n < 0x10 { } else if n < 0x20 { } else if n < 0x30 { } else if n < 0x40 { } else
    if n < 0x50 { } else if n < 0x60 { } else if n < 0x70 { } else if n < 0x80 { } else
    if n < 0x90 { } else if n < 0xA0 { } else if n < 0xB0 { } else if n < 0xC0 { } else
    if n < 0xD0 { } else if n < 0xE0 { } else if n < 0xF0 { } else { }
  }

  /** Every ASCII character's code point survives the trip through a byte. */
  lemma AsciiBytes(s: string)
    requires IsAscii(s)
    ensures forall i :: 0 <= i < |s| ==> ((s[i] as int) as byte) as int == s[i] as int
  {
    forall i | 0 <= i < |s|
      ensures ((s[i] as int) as byte) as int == s[i] as int
    {
      SmallByte(s[i] as int);
    }
  }

  /** UTF-8 encoding of ASCII text: every character becomes the single byte
      holding its code point (the one-octet case of RFC 3629 section 3). */
  function EncodeAscii(s: string): (r: seq<byte>)
    requires IsAscii(s)
    ensures |r| == |s|
    ensures forall i :: 0 <= i < |s| ==> r[i] as int == s[i] as int
  {
    AsciiBytes(s);
    seq(|s|, i requires 0 <= i < |s| => s[i] as int as byte)
  }

  /** Reading bytes back as ASCII text; fails on any byte outside ASCII. */
  function DecodeAscii(b: seq<byte>): (r: Option<string>)
    ensures r.Some? <==> forall i :: 0 <= i < |b| ==> b[i] < 0x80
    ensures r.Some? ==> IsAscii(r.value) && |r.value| == |b|
  {
    if forall i :: 0 <= i < |b| ==> b[i] < 0x80 then
      Some(seq(|b|, i requires 0 <= i < |b| => b[i] as int as char))
    else
      None
  }

  /** Decoding undoes encoding. */
  lemma DecodeEncodeAscii(s: string)
    requires IsAscii(s)
    ensures DecodeAscii(EncodeAscii(s)) == Some(s)
  {
    var b := EncodeAscii(s);
    assert forall i :: 0 <= i < |b| ==> b[i] < 0x80;
    assert DecodeAscii(b).value == s;
  }

  /** Encoding is injective on ASCII text. */
  lemma EncodeAsciiInjective(s: string, t: string)
    requires IsAscii(s) && IsAscii(t)
    requires EncodeAscii(s) == EncodeAscii(t)
    ensures s == t
  {
    DecodeEncodeAscii(s);
    DecodeEncodeAscii(t);
  }
}
