/** Cipher-block chaining over an abstract 128-bit block cipher (NIST SP 800-38A
    section 6.2). AES itself is not modelled: a `BlockCipher` is any pair of keyed block
    functions, and the laws a real cipher satisfies are stated as predicates that the
    lemmas take as hypotheses. */
module Cbc {
  import opened Bytes

  /** The AES block size in bytes (128 bits). */
  const BlockSize: nat := 16

  const KeySize: nat := 32

  /** A 16-byte block: the IV and every unit the block cipher consumes. */
  type Block = b: seq<byte> | |b| == BlockSize witness seq(16, _ => 0)

  /** A 256-bit AES key. */
  type Key = k: seq<byte> | |k| == KeySize witness seq(32, _ => 0)

  /** The keyed block permutation and its inverse (the AES encryption and decryption
      functions of FIPS 197, left uninterpreted). */
  datatype BlockCipher = BlockCipher(forward: (Key, Block) -> Block, inverse: (Key, Block) -> Block)

  /** Decryption undoes encryption under every key. */
  ghost predicate Inverts(bc: BlockCipher) {
    forall k: Key, b: Block :: bc.inverse(k, bc.forward(k, b)) == b
  }

  /** Encryption also undoes decryption: the block function is a bijection. */
  ghost predicate Bijective(bc: BlockCipher) {
    && Inverts(bc)
    && forall k: Key, b: Block :: bc.forward(k, bc.inverse(k, b)) == b
  }

  /** Byte-wise exclusive or of two blocks. */
  function Xor(a: Block, b: Block): (r: Block)
    ensures forall i :: 0 <= i < BlockSize ==> r[i] == XorByte(a[i], b[i])
  {
    seq(BlockSize, i requires 0 <= i < BlockSize => XorByte(a[i], b[i]))
  }

  lemma XorCancel(a: Block, b: Block)
    ensures Xor(Xor(a, b), b) == a
  {
    forall i | 0 <= i < BlockSize
      ensures Xor(Xor(a, b), b)[i] == a[i]
    {
      XorByteCancel(a[i], b[i]);
    }
  }

  /** Block `j` (0-based) of a block-aligned sequence. */
  function BlockAt(s: seq<byte>, j: nat): (r: Block)
    requires (j + 1) * BlockSize <= |s|
  {
    s[j * BlockSize..(j + 1) * BlockSize]
  }

  /** CBC encryption: each plaintext block is XORed with the previous ciphertext block
      (the IV for the first) and then passed through the block cipher. */
  function CbcEncrypt(bc: BlockCipher, k: Key, iv: Block, p: seq<byte>): (r: seq<byte>)
    requires |p| % BlockSize == 0
    ensures |r| == |p|
    decreases |p|
  {
    if |p| == 0 then []
    else
      var c := bc.forward(k, Xor(p[..BlockSize], iv));
      c + CbcEncrypt(bc, k, c, p[BlockSize..])
  }

  /** CBC decryption: each ciphertext block is passed through the inverse cipher and then
      XORed with the previous ciphertext block (the IV for the first). */
  function CbcDecrypt(bc: BlockCipher, k: Key, iv: Block, c: seq<byte>): (r: seq<byte>)
    requires |c| % BlockSize == 0
    ensures |r| == |c|
    decreases |c|
  {
    if |c| == 0 then []
    else
      Xor(bc.inverse(k, c[..BlockSize]), iv) + CbcDecrypt(bc, k, c[..BlockSize], c[BlockSize..])
  }

  /** The block-indexed definition of CBC encryption from SP 800-38A:
      C[0] = CIPH(P[0] xor IV) and C[j] = CIPH(P[j] xor C[j-1]). */
  ghost predicate Chained(bc: BlockCipher, k: Key, iv: Block, p: seq<byte>, r: seq<byte>)
    requires |p| == |r|
  {
    forall j: nat {:trigger BlockAt(p, j)} :: (j + 1) * BlockSize <= |p| ==>
      BlockAt(r, j) == bc.forward(k, Xor(BlockAt(p, j), if j == 0 then iv else BlockAt(r, j - 1)))
  }

  /** The recursive CBC encryption meets the block-indexed definition. */
  lemma {:induction false} CbcEncryptBlocks(bc: BlockCipher, k: Key, iv: Block, p: seq<byte>)
    requires |p| % BlockSize == 0
    ensures Chained(bc, k, iv, p, CbcEncrypt(bc, k, iv, p))
    decreases |p|
  {
    if |p| > 0 {
      var r := CbcEncrypt(bc, k, iv, p);
      var c := bc.forward(k, Xor(p[..BlockSize], iv));
      var p' := p[BlockSize..];
      var r' := CbcEncrypt(bc, k, c, p');
      assert r == c + r';
      assert p[..BlockSize] + p' == p;
      CbcEncryptBlocks(bc, k, c, p');
      forall j: nat | (j + 1) * BlockSize <= |p|
        ensures BlockAt(r, j) == bc.forward(k, Xor(BlockAt(p, j), if j == 0 then iv else BlockAt(r, j - 1)))
      {
        if j == 0 {
          assert BlockAt(r, 0) == c;
          assert BlockAt(p, 0) == p[..BlockSize];
        } else {
          ChainStep(bc, k, c, p[..BlockSize], p', r', j);
        }
      }
      assert Chained(bc, k, iv, p, r);
    }
  }

  /** Block `j >= 1` of a chained encryption whose first block is `c` follows from the
      chaining of the remaining blocks. */
  lemma ChainStep(bc: BlockCipher, k: Key, c: Block, p0: Block, p': seq<byte>, r': seq<byte>, j: nat)
    requires |p'| == |r'|
    requires Chained(bc, k, c, p', r')
    requires j >= 1 && (j + 1) * BlockSize <= |p0| + |p'|
    ensures BlockAt(c + r', j) ==
              bc.forward(k, Xor(BlockAt(p0 + p', j), if j == 1 then c else BlockAt(c + r', j - 1)))
  {
    var i: nat := j - 1;
    assert (i + 1) * BlockSize <= |p'| by {
      assert (i + 1) * BlockSize == (j + 1) * BlockSize - BlockSize;
    }
    ShiftBlock(c, r', j);
    ShiftBlock(p0, p', j);
    assert BlockAt(r', i) == bc.forward(k, Xor(BlockAt(p', i), if i == 0 then c else BlockAt(r', i - 1)));
    if i > 0 {
      ShiftBlock(c, r', i);
    }
  }

  /** Dropping a leading block shifts block indices down by one. */
  lemma ShiftBlock(h: Block, t: seq<byte>, j: nat)
    requires j >= 1 && (j + 1) * BlockSize <= |h| + |t|
    ensures BlockAt(h + t, j) == BlockAt(t, j - 1)
  {
    assert (j - 1) * BlockSize == j * BlockSize - BlockSize;
  }

  /** CBC decryption inverts CBC encryption under the same key and IV. */
  lemma {:induction false} CbcDecryptEncrypt(bc: BlockCipher, k: Key, iv: Block, p: seq<byte>)
    requires Inverts(bc)
    requires |p| % BlockSize == 0
    ensures CbcDecrypt(bc, k, iv, CbcEncrypt(bc, k, iv, p)) == p
    decreases |p|
  {
    if |p| > 0 {
      var x := Xor(p[..BlockSize], iv);
      var c := bc.forward(k, x);
      var rest := CbcEncrypt(bc, k, c, p[BlockSize..]);
      var e: seq<byte> := c + rest;
      assert e[..BlockSize] == c;
      assert e[BlockSize..] == rest;
      XorCancel(p[..BlockSize], iv);
      CbcDecryptEncrypt(bc, k, c, p[BlockSize..]);
      assert p == p[..BlockSize] + p[BlockSize..];
    }
  }

  /** For a bijective block cipher, CBC encryption inverts CBC decryption as well. */
  lemma {:induction false} CbcEncryptDecrypt(bc: BlockCipher, k: Key, iv: Block, c: seq<byte>)
    requires Bijective(bc)
    requires |c| % BlockSize == 0
    ensures CbcEncrypt(bc, k, iv, CbcDecrypt(bc, k, iv, c)) == c
    decreases |c|
  {
    if |c| > 0 {
      var c0: Block := c[..BlockSize];
      var y := bc.inverse(k, c0);
      var d := Xor(y, iv) + CbcDecrypt(bc, k, c0, c[BlockSize..]);
      assert d[..BlockSize] == Xor(y, iv);
      assert d[BlockSize..] == CbcDecrypt(bc, k, c0, c[BlockSize..]);
      XorCancel(y, iv);
      assert bc.forward(k, y) == c0;
      CbcEncryptDecrypt(bc, k, c0, c[BlockSize..]);
      assert c == c0 + c[BlockSize..];
    }
  }
}
