/** PKCS#7 padding (section 6.3 of RFC 5652), as `padding.PKCS7(128)` applies it
    in one shot: `padder.update(data) + padder.finalize()`. */
module Pkcs7 {
  import opened Wrappers
  import opened Bytes

  /** The padder's block size in bits, as the source passes it. */
  const BlockBits: nat := 128

  /** The block size in bytes. */
  const BlockLen: nat := BlockBits / 8

  /** Appends n bytes of value n, where n (1 to BlockLen) brings the length to
      the next multiple of BlockLen strictly above the input's length. */
  function Pad(data: seq<byte>): (r: seq<byte>)
    ensures |r| % BlockLen == 0
    ensures |data| < |r| <= |data| + BlockLen
    ensures |data| % BlockLen == 0 ==> |r| == |data| + BlockLen
    ensures r[..|data|] == data
    ensures forall i :: |data| <= i < |r| ==> r[i] as int == |r| - |data|
  {
    PadCount(|data|);
    var n := BlockLen - |data| % BlockLen;
    SmallByte(n);
    data + seq(n, _ => n as byte)
  }


  /** The number of bytes Pad appends to len bytes: 1 to BlockLen, a whole
      block when len is already aligned, and always reaching alignment. */
  lemma PadCount(len: nat)
    ensures var n := BlockLen - len % BlockLen;
      && 0 < n <= BlockLen
      && (len + n) % BlockLen == 0
      && (len % BlockLen == 0 ==> n == BlockLen)
  {
    var q, r := len / BlockLen, len % BlockLen;
    assert len == BlockLen * q + r && 0 <= r < BlockLen;
    assert len + (BlockLen - r) == BlockLen * (q + 1);
    assert (BlockLen * (q + 1)) % BlockLen == 0;
  }

  /** Padding n bytes gives the next multiple of BlockLen strictly above n. */
  lemma PaddedLength(data: seq<byte>)
    ensures |Pad(data)| == BlockLen * (|data| / BlockLen + 1)
  {
    var r := Pad(data);
    var k := |r| / BlockLen;
    assert |r| == BlockLen * k;
    assert BlockLen * (|data| / BlockLen) <= |data| < BlockLen * (|data| / BlockLen + 1);
  }

  /** Removes valid PKCS#7 padding, as the library's unpadder does in one shot:
      the input must be a non-empty whole number of blocks, and its last byte n
      must lie in 1..BlockLen with the last n bytes all equal to n. */
  function Unpad(p: seq<byte>): (r: Option<seq<byte>>)
    ensures r.Some? ==> |p| - BlockLen <= |r.value| < |p| && r.value == p[..|r.value|]
  {
    if |p| == 0 || |p| % BlockLen != 0 then None
    else
      var n := p[|p| - 1] as int;
      if n == 0 || n > BlockLen then None
      else if forall i :: |p| - n <= i < |p| ==> p[i] == p[|p| - 1] then Some(p[..|p| - n])
      else None
  }

  /** Unpadding the padded data returns the data exactly. */
  lemma UnpadPad(data: seq<byte>)
    ensures Unpad(Pad(data)) == Some(data)
  {
    var p := Pad(data);
    var n := |p| - |data|;
    assert p[|p| - 1] as int == n;
    assert forall i :: |p| - n <= i < |p| ==> p[i] == p[|p| - 1];
    assert p[..|p| - n] == data;
  }

  /** What a successful Unpad has checked: n, the last byte, is 1 to BlockLen,
      the last n bytes all hold n, and the result drops exactly them. */
  lemma UnpadChecks(p: seq<byte>)
    requires Unpad(p).Some?
    ensures var n := p[|p| - 1] as int;
      && |p| % BlockLen == 0 && 0 < n <= BlockLen <= |p|
      && Unpad(p).value == p[..|p| - n]
      && (forall i :: |p| - n <= i < |p| ==> p[i] as int == n)
  {
  }

  /** Whatever unpads successfully is exactly the padding of its result, so
      padding is the only way to produce a valid padded block sequence. */
  lemma PadUnpad(p: seq<byte>, data: seq<byte>)
    requires Unpad(p) == Some(data)
    ensures Pad(data) == p
  {
    var n := p[|p| - 1] as int;
    UnpadChecks(p);
    PadCountOfAligned(|p|, n);
    var q := Pad(data);
    assert |q| == |p|;
    forall i | 0 <= i < |p|
      ensures q[i] == p[i]
    {
      if i < |data| {
        assert q[i] == q[..|data|][i];
      } else {
        assert q[i] as int == n;
      }
    }
  }

  /** Taking 1..BlockLen bytes off a whole number of blocks leaves a length
      that Pad restores with exactly that many bytes. */
  lemma PadCountOfAligned(len: nat, n: nat)
    requires len % BlockLen == 0 && 0 < n <= BlockLen <= len
    ensures BlockLen - (len - n) % BlockLen == n
  {
    var k := len / BlockLen;
    var q, r := (len - n) / BlockLen, (len - n) % BlockLen;
    assert len == BlockLen * k;
    assert len - n == BlockLen * q + r && 0 <= r < BlockLen;
    assert BlockLen * (k - 1 - q) == r - (BlockLen - n);
    assert k - 1 - q == 0;
  }

  /** Padding keeps every prefix of the data. */
  lemma PadPrefix(d1: seq<byte>, d2: seq<byte>, n: nat)
    requires n <= |d1| && n <= |d2| && d1[..n] == d2[..n]
    ensures n <= |Pad(d1)| && n <= |Pad(d2)| && Pad(d1)[..n] == Pad(d2)[..n]
  {
    var a1, a2 := Pad(d1), Pad(d2);
    assert a1[..n] == a1[..|d1|][..n];
    assert a2[..n] == a2[..|d2|][..n];
  }

  /** Padding is injective. */
  lemma PadInjective(a: seq<byte>, b: seq<byte>)
    requires Pad(a) == Pad(b)
    ensures a == b
  {
    UnpadPad(a);
    UnpadPad(b);
  }
}
