/**
  Cipher Block Chaining over an abstract 128-bit block cipher (section 6.2 of
  NIST SP 800-38A): C_1 = CIPH_K(P_1 xor IV), C_j = CIPH_K(P_j xor C_(j-1)).
  The cipher is a parameter, so nothing about AES beyond its block size
  (carried by the type Block) and, where stated, its inverse is assumed.
 */
module Cbc {
  import opened Wrappers
  import opened Bytes

  /** Block j (0-based) of a block-aligned byte string. */
  function BlockAt(s: seq<byte>, j: nat): Block
    requires 16 * j + 16 <= |s|
  {
    s[16 * j..16 * j + 16]
  }

  /** The block chained into block j: the IV for the first, the previous ciphertext block after. */
  function ChainInput(iv: Block, c: seq<byte>, j: nat): Block
    requires 16 * j <= |c|
  {
    if j == 0 then iv else BlockAt(c, j - 1)
  }

  /** CBC encryption of block-aligned data under `key`, `prev` being the IV or the last ciphertext block. */
  function EncryptChain(cipher: (Key, Block) -> Block, key: Key, prev: Block, p: seq<byte>): (c: seq<byte>)
    requires |p| % BlockSize == 0
    ensures |c| == |p|
    decreases |p|
  {
    if |p| == 0 then []
    else
      var out := cipher(key, Xor(prev, p[..16]));
      out + EncryptChain(cipher, key, out, p[16..])
  }

  /** CBC decryption: P_j = CIPH^-1_K(C_j) xor C_(j-1). */
  function DecryptChain(inverse: (Key, Block) -> Block, key: Key, prev: Block, c: seq<byte>): (p: seq<byte>)
    requires |c| % BlockSize == 0
    ensures |p| == |c|
    decreases |c|
  {
    if |c| == 0 then []
    else Xor(prev, inverse(key, c[..16])) + DecryptChain(inverse, key, c[..16], c[16..])
  }

  datatype CipherError = NotBlockAligned

  /**
    The encryptor's `update(data) + finalize()` of lines 29-31: CBC mode does
    no padding of its own, so finalize fails unless the data fills whole blocks.
   */
  function AesCbcEncrypt(cipher: (Key, Block) -> Block, key: Key, iv: Block, data: seq<byte>)
    : (r: Result<seq<byte>, CipherError>)
    ensures r.Success? <==> |data| % BlockSize == 0
    ensures r.Success? ==> |r.value| == |data|
  {
    if |data| % BlockSize != 0 then Failure(NotBlockAligned)
    else Success(EncryptChain(cipher, key, iv, data))
  }

  /** Block j of a string that starts with one block is block j - 1 of the rest. */
  lemma BlockAtAfterFirst(s: seq<byte>, j: nat)
    requires 0 < j && 16 * j + 16 <= |s|
    ensures BlockAt(s, j) == BlockAt(s[16..], j - 1)
  {
  }

  /** The chain computes the equations of SP 800-38A block by block. */
  lemma {:induction false} EncryptChainBlock(cipher: (Key, Block) -> Block, key: Key, iv: Block, p: seq<byte>, j: nat)
    requires |p| % BlockSize == 0 && 16 * j + 16 <= |p|
    ensures var c := EncryptChain(cipher, key, iv, p);
      BlockAt(c, j) == cipher(key, Xor(ChainInput(iv, c, j), BlockAt(p, j)))
    decreases j
  {
    var c := EncryptChain(cipher, key, iv, p);
    var first := cipher(key, Xor(iv, p[..16]));
    var rest := EncryptChain(cipher, key, first, p[16..]);
    assert c[..16] == first && c[16..] == rest;
    if j > 0 {
      EncryptChainBlock(cipher, key, first, p[16..], j - 1);
      BlockAtAfterFirst(c, j);
      BlockAtAfterFirst(p, j);
      if j > 1 {
        BlockAtAfterFirst(c, j - 1);
      }
    }
  }

  /** Decrypting with the cipher's inverse under the same key and IV returns the data. */
  lemma {:induction false} DecryptEncryptChain(
    cipher: (Key, Block) -> Block, inverse: (Key, Block) -> Block, key: Key, iv: Block, p: seq<byte>)
    requires |p| % BlockSize == 0
    requires forall b: Block :: inverse(key, cipher(key, b)) == b
    ensures DecryptChain(inverse, key, iv, EncryptChain(cipher, key, iv, p)) == p
    decreases |p|
  {
    if |p| > 0 {
      var c := EncryptChain(cipher, key, iv, p);
      var out := cipher(key, Xor(iv, p[..16]));
      assert c[..16] == out && c[16..] == EncryptChain(cipher, key, out, p[16..]);
      XorCancel(iv, p[..16]);
      DecryptEncryptChain(cipher, inverse, key, out, p[16..]);
      assert p == p[..16] + p[16..];
    }
  }
}
