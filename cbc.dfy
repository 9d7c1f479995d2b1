/** Cipher-block chaining (section 6.2 of NIST SP 800-38A) over an abstract
    128-bit block cipher, with the key and IV checks that
    `Cipher(algorithms.AES(key), modes.CBC(iv))` performs. */
module Cbc {
  import opened Wrappers
  import opened Bytes

  /** The AES block size in bytes (FIPS 197: 128-bit blocks). */
  const BlockSize: nat := 16

  type Block = s: seq<byte> | |s| == BlockSize witness seq(BlockSize, _ => 0)

  /** The key lengths AES defines (FIPS 197: 128, 192 and 256 bits). */
  predicate IsAesKeyLength(n: nat) {
    n == 16 || n == 24 || n == 32
  }

  type AesKey = k: seq<byte> | IsAesKeyLength(|k|) witness seq(16, _ => 0)

  /** A keyed block cipher: the forward permutation E_k and its inverse D_k.
      AES itself is not modelled; every result holds for any such pair. */
  datatype BlockCipher = BlockCipher(encrypt: (AesKey, Block) -> Block, decrypt: (AesKey, Block) -> Block)

  /** D_k undoes E_k for every key. */
  ghost predicate DecryptInverts(c: BlockCipher) {
    forall k: AesKey, b: Block :: c.decrypt(k, c.encrypt(k, b)) == b
  }

  /** E_k undoes D_k for every key. */
  ghost predicate EncryptInverts(c: BlockCipher) {
    forall k: AesKey, b: Block :: c.encrypt(k, c.decrypt(k, b)) == b
  }

  /** Byte-wise exclusive or of two blocks. */
  function Xor(a: Block, b: Block): (r: Block)
    ensures forall i :: 0 <= i < BlockSize ==> r[i] == a[i] ^ b[i]
  {
    seq(BlockSize, i requires 0 <= i < BlockSize => a[i] ^ b[i])
  }

  lemma XorCancel(a: Block, b: Block)
    ensures Xor(Xor(a, b), b) == a
  {
    var r := Xor(Xor(a, b), b);
    forall i | 0 <= i < BlockSize
      ensures r[i] == a[i]
    {
      assert r[i] == (a[i] ^ b[i]) ^ b[i];
    }
  }

  /** Block i (counting from 0) of a block-aligned sequence. */
  function BlockAt(s: seq<byte>, i: nat): Block
    requires BlockSize * (i + 1) <= |s|
  {
    s[BlockSize * i .. BlockSize * (i + 1)]
  }

  /** CBC encryption with chaining value prev: C_0 = E_k(P_0 xor prev) and
      each later block is chained on the ciphertext block before it. */
  function EncryptBlocks(c: BlockCipher, key: AesKey, prev: Block, p: seq<byte>): (r: seq<byte>)
    requires |p| % BlockSize == 0
    ensures |r| == |p|
    decreases |p|
  {
    if |p| == 0 then []
    else
      var ct := c.encrypt(key, Xor(p[..BlockSize], prev));
      ct + EncryptBlocks(c, key, ct, p[BlockSize..])
  }

  /** CBC decryption with chaining value prev: P_i = D_k(C_i) xor C_{i-1}. */
  function DecryptBlocks(c: BlockCipher, key: AesKey, prev: Block, x: seq<byte>): (r: seq<byte>)
    requires |x| % BlockSize == 0
    ensures |r| == |x|
    decreases |x|
  {
    if |x| == 0 then []
    else
      var ct: Block := x[..BlockSize];
      Xor(c.decrypt(key, ct), prev) + DecryptBlocks(c, key, ct, x[BlockSize..])
  }

  /** The chaining value after a block-aligned ciphertext: its last block,
      or the starting value when it is empty. */
  function LastBlock(prev: Block, x: seq<byte>): Block
    requires |x| % BlockSize == 0
  {
    if |x| == 0 then prev else x[|x| - BlockSize..]
  }

  /** Every ciphertext block is E_k(P_i xor C_{i-1}) with C_{-1} = the IV. */
  lemma {:induction false} EncryptBlockAt(c: BlockCipher, key: AesKey, prev: Block, p: seq<byte>, i: nat)
    requires |p| % BlockSize == 0 && BlockSize * (i + 1) <= |p|
    ensures var r := EncryptBlocks(c, key, prev, p);
      BlockAt(r, i) == c.encrypt(key, Xor(BlockAt(p, i), if i == 0 then prev else BlockAt(r, i - 1)))
    decreases i
  {
    var r := EncryptBlocks(c, key, prev, p);
    var ct := c.encrypt(key, Xor(p[..BlockSize], prev));
    var tail := p[BlockSize..];
    assert r == ct + EncryptBlocks(c, key, ct, tail);
    if i == 0 {
      assert BlockAt(r, 0) == ct;
      assert BlockAt(p, 0) == p[..BlockSize];
    } else {
      EncryptBlockAt(c, key, ct, tail, i - 1);
      var rt := EncryptBlocks(c, key, ct, tail);
      assert BlockSize * i == BlockSize * (i - 1) + BlockSize;
      assert BlockAt(r, i) == BlockAt(rt, i - 1);
      assert BlockAt(p, i) == BlockAt(tail, i - 1);
      if i == 1 {
        assert BlockAt(r, 0) == ct;
      } else {
        assert BlockAt(r, i - 1) == BlockAt(rt, i - 2);
      }
    }
  }

  /** Encrypting p ++ q is encrypting p, then q chained on p's last block. */
  lemma {:induction false} EncryptBlocksAppend(c: BlockCipher, key: AesKey, prev: Block, p: seq<byte>, q: seq<byte>)
    requires |p| % BlockSize == 0 && |q| % BlockSize == 0
    ensures EncryptBlocks(c, key, prev, p + q)
      == EncryptBlocks(c, key, prev, p) + EncryptBlocks(c, key, LastBlock(prev, EncryptBlocks(c, key, prev, p)), q)
    decreases |p|
  {
    if |p| == 0 {
      assert p + q == q;
    } else {
      var ct := c.encrypt(key, Xor(p[..BlockSize], prev));
      assert (p + q)[..BlockSize] == p[..BlockSize];
      assert (p + q)[BlockSize..] == p[BlockSize..] + q;
      EncryptBlocksAppend(c, key, ct, p[BlockSize..], q);
      var rest := EncryptBlocks(c, key, ct, p[BlockSize..]);
      assert LastBlock(prev, ct + rest) == LastBlock(ct, rest);
    }
  }

  /** Ciphertext up to block i depends only on plaintext up to block i: two
      plaintexts sharing a block-aligned prefix share that ciphertext prefix. */
  lemma EncryptPrefix(c: BlockCipher, key: AesKey, iv: Block, p: seq<byte>, q1: seq<byte>, q2: seq<byte>)
    requires |p| % BlockSize == 0 && |q1| % BlockSize == 0 && |q2| % BlockSize == 0
    ensures EncryptBlocks(c, key, iv, p + q1)[..|p|] == EncryptBlocks(c, key, iv, p)
    ensures EncryptBlocks(c, key, iv, p + q1)[..|p|] == EncryptBlocks(c, key, iv, p + q2)[..|p|]
  {
    EncryptBlocksAppend(c, key, iv, p, q1);
    EncryptBlocksAppend(c, key, iv, p, q2);
  }

  /** Two block-aligned plaintexts that agree on their first k blocks have
      ciphertexts that agree on their first k blocks. */
  lemma EncryptSharedPrefix(c: BlockCipher, key: AesKey, iv: Block, p1: seq<byte>, p2: seq<byte>, k: nat)
    requires |p1| % BlockSize == 0 && |p2| % BlockSize == 0
    requires BlockSize * k <= |p1| && BlockSize * k <= |p2|
    requires p1[..BlockSize * k] == p2[..BlockSize * k]
    ensures EncryptBlocks(c, key, iv, p1)[..BlockSize * k] == EncryptBlocks(c, key, iv, p2)[..BlockSize * k]
  {
    var n := BlockSize * k;
    var p := p1[..n];
    AlignedRest(|p1|, k);
    AlignedRest(|p2|, k);
    assert p1 == p + p1[n..];
    assert p2 == p + p2[n..];
    EncryptPrefix(c, key, iv, p, p1[n..], p2[n..]);
  }

  /** Removing k whole blocks from a block-aligned length leaves it aligned. */
  lemma AlignedRest(len: nat, k: nat)
    requires len % BlockSize == 0 && BlockSize * k <= len
    ensures (len - BlockSize * k) % BlockSize == 0
  {
    var j := len / BlockSize;
    assert len - BlockSize * k == BlockSize * (j - k);
  }

  /** Decryption with the same key and IV recovers the plaintext. */
  lemma {:induction false} DecryptEncrypt(c: BlockCipher, key: AesKey, prev: Block, p: seq<byte>)
    requires DecryptInverts(c) && |p| % BlockSize == 0
    ensures DecryptBlocks(c, key, prev, EncryptBlocks(c, key, prev, p)) == p
    decreases |p|
  {
    if |p| != 0 {
      var p0: Block := p[..BlockSize];
      var ct := c.encrypt(key, Xor(p0, prev));
      var x := EncryptBlocks(c, key, prev, p);
      assert x[..BlockSize] == ct;
      assert x[BlockSize..] == EncryptBlocks(c, key, ct, p[BlockSize..]);
      XorCancel(p0, prev);
      DecryptEncrypt(c, key, ct, p[BlockSize..]);
      assert p == p0 + p[BlockSize..];
    }
  }

  /** Encryption with the same key and IV re-creates a decrypted ciphertext. */
  lemma {:induction false} EncryptDecrypt(c: BlockCipher, key: AesKey, prev: Block, x: seq<byte>)
    requires EncryptInverts(c) && |x| % BlockSize == 0
    ensures EncryptBlocks(c, key, prev, DecryptBlocks(c, key, prev, x)) == x
    decreases |x|
  {
    if |x| != 0 {
      var ct: Block := x[..BlockSize];
      var p0 := Xor(c.decrypt(key, ct), prev);
      var p := DecryptBlocks(c, key, prev, x);
      assert p[..BlockSize] == p0;
      assert p[BlockSize..] == DecryptBlocks(c, key, ct, x[BlockSize..]);
      XorCancel(c.decrypt(key, ct), prev);
      EncryptDecrypt(c, key, ct, x[BlockSize..]);
      assert x == ct + x[BlockSize..];
    }
  }

  /** The errors the cipher construction and the encryptor raise. */
  datatype CryptoError =
    | InvalidKeySize    // AES(key) with a key that is not 128, 192 or 256 bits
    | InvalidIvSize     // CBC(iv) whose IV is not one block
    | NotBlockAligned   // finalize() with a partial block left over

  /** A cipher context: `Cipher(algorithms.AES(key), modes.CBC(iv))`. */
  datatype Context = Context(cipher: BlockCipher, key: AesKey, iv: Block)

  /** Builds a context, checking the key first and then the IV. */
  function NewContext(cipher: BlockCipher, key: seq<byte>, iv: seq<byte>): (r: Result<Context, CryptoError>)
    ensures r.Success? <==> IsAesKeyLength(|key|) && |iv| == BlockSize
    ensures r.Failure? ==> (r.error == InvalidKeySize <==> !IsAesKeyLength(|key|))
    ensures r.Failure? ==> r.error != NotBlockAligned
    ensures r.Success? ==> r.value.cipher == cipher && r.value.key == key && r.value.iv == iv
  {
    if !IsAesKeyLength(|key|) then Failure(InvalidKeySize)
    else if |iv| != BlockSize then Failure(InvalidIvSize)
    else Success(Context(cipher, key, iv))
  }

  /** `encryptor.update(data) + encryptor.finalize()`: CBC over the whole input,
      failing when the input is not a whole number of blocks. */
  function Encrypt(ctx: Context, data: seq<byte>): (r: Result<seq<byte>, CryptoError>)
    ensures r.Success? <==> |data| % BlockSize == 0
    ensures r.Failure? ==> r.error == NotBlockAligned
    ensures r.Success? ==> |r.value| == |data|
  {
    if |data| % BlockSize != 0 then Failure(NotBlockAligned)
    else Success(EncryptBlocks(ctx.cipher, ctx.key, ctx.iv, data))
  }

  /** The decryptor of the same context (model only; the source never decrypts). */
  function Decrypt(ctx: Context, data: seq<byte>): (r: Result<seq<byte>, CryptoError>)
    ensures r.Success? <==> |data| % BlockSize == 0
    ensures r.Success? ==> |r.value| == |data|
  {
    if |data| % BlockSize != 0 then Failure(NotBlockAligned)
    else Success(DecryptBlocks(ctx.cipher, ctx.key, ctx.iv, data))
  }

  /** Decrypting a context's ciphertext recovers its plaintext. */
  lemma DecryptOfEncrypt(ctx: Context, data: seq<byte>)
    requires DecryptInverts(ctx.cipher) && |data| % BlockSize == 0
    ensures Encrypt(ctx, data).Success?
    ensures Decrypt(ctx, Encrypt(ctx, data).value) == Success(data)
  {
    DecryptEncrypt(ctx.cipher, ctx.key, ctx.iv, data);
  }
}
