/**
 * The kernel's crypto engine: AES-128 (FIPS 197) in electronic-codebook mode
 * (section 6.1 of NIST SP 800-38A) over the secret key held in machine-mode memory.
 * The block cipher itself is not modelled: it is any total function from a key and a
 * 16-byte block to a 16-byte block, passed in as a value.
 */
module Crypto {
  import opened Bytes


  type Key = k: seq<byte> | |k| == 16 witness Zeros(16)
  type Block = b: seq<byte> | |b| == 16 witness Zeros(16)

  /** The block cipher `AesEnc(key, block)`, left uninterpreted. */
  type Cipher = (Key, Block) -> Block

  /** The AES-128 key kept in kernel memory; it is the example key of FIPS 197 Appendix A. */
  const SECRET_KEY: Key := [0x2b, 0x7e, 0x15, 0x16, 0x28, 0xae, 0xd2, 0xa6,
                            0xab, 0xf7, 0x15, 0x88, 0x09, 0xcf, 0x4f, 0x3c]

  /** ECB encryption of a whole number of blocks: every block is enciphered on its own. */
  function EcbEncrypt(aes: Cipher, key: Key, s: seq<byte>): (r: seq<byte>)
    requires |s| % 16 == 0
    ensures |r| == |s|
    decreases |s|
  {
    if s == [] then [] else aes(key, s[..16]) + EcbEncrypt(aes, key, s[16..])
  }

  /** ECB distributes over concatenation at block boundaries. */
  lemma {:induction false} EcbAppend(aes: Cipher, key: Key, s: seq<byte>, t: seq<byte>)
    requires |s| % 16 == 0 && |t| % 16 == 0
    ensures EcbEncrypt(aes, key, s + t) == EcbEncrypt(aes, key, s) + EcbEncrypt(aes, key, t)
    decreases |s|
  {
    if s != [] {
      calc {
        EcbEncrypt(aes, key, s + t);
        { assert (s + t)[..16] == s[..16];
          assert (s + t)[16..] == s[16..] + t; }
        aes(key, s[..16]) + EcbEncrypt(aes, key, s[16..] + t);
        { EcbAppend(aes, key, s[16..], t); }
        aes(key, s[..16]) + (EcbEncrypt(aes, key, s[16..]) + EcbEncrypt(aes, key, t));
      }
    } else {
      assert s + t == t;
    }
  }

  /** Block `j` of the ciphertext is the cipher applied to block `j` of the plaintext alone. */
  lemma {:induction false} EcbBlockAt(aes: Cipher, key: Key, s: seq<byte>, j: nat)
    requires |s| % 16 == 0 && 16 * (j + 1) <= |s|
    ensures EcbEncrypt(aes, key, s)[16 * j..16 * (j + 1)]
            == aes(key, s[16 * j..16 * (j + 1)])
    decreases j
  {
    var r := EcbEncrypt(aes, key, s);
    assert r == aes(key, s[..16]) + EcbEncrypt(aes, key, s[16..]);
    if j > 0 {
      EcbBlockAt(aes, key, s[16..], j - 1);
      assert s[16..][16 * (j - 1)..16 * j] == s[16 * j..16 * (j + 1)];
      assert r[16 * j..16 * (j + 1)]
          == EcbEncrypt(aes, key, s[16..])[16 * (j - 1)..16 * j];
    }
  }

  /** On exactly one block, ECB is one application of the cipher. */
  lemma EcbSingleBlock(aes: Cipher, key: Key, b: Block)
    ensures EcbEncrypt(aes, key, b) == aes(key, b)
  {
    assert b[..16] == b;
    assert b[16..] == [];
  }

  /** Number of 16-byte blocks the loop `for (i = 0; i < len; i += 16)` visits. */
  function BlocksVisited(len: int): (n: nat)
    ensures len <= 0 ==> n == 0
    ensures len > 0 ==> 16 * (n - 1) < len <= 16 * n
  {
    if len <= 0 then 0 else (len + 16 - 1) / 16
  }

  /** `AES_ECB_encrypt(&ctx, data + off)`: encipher the 16 bytes at `off` in place. */
  method AesEcbEncrypt(aes: Cipher, key: Key, data: array<byte>, off: nat)
    requires off + 16 <= data.Length
    modifies data
    ensures data[..] == old(data[..off]) + aes(key, old(data[off..off + 16])) + old(data[off + 16..])
  {
    var c := aes(key, data[off..off + 16]);
    forall k | off <= k < off + 16 {
      data[k] := c[k - off];
    }
    assert data[..] == old(data[..off]) + c + old(data[off + 16..]);
  }

  /**
   * `kernel_crypto_engine(data, len)`: ECB-encrypt `data` in place, one block per
   * 16 bytes below `len`. As in the C code, a `len` that is not a multiple of 16
   * still enciphers the whole last block, and `data` must hold every block visited.
   */
  method KernelCryptoEngine(aes: Cipher, data: array<byte>, len: int)
    requires 16 * BlocksVisited(len) <= data.Length
    modifies data
    ensures var n := 16 * BlocksVisited(len);
            data[..] == EcbEncrypt(aes, SECRET_KEY, old(data[..])[..n]) + old(data[..])[n..]
  {
    ghost var plain := data[..];
    var i := 0;
    ghost var j: nat := 0;
    while i < len
      invariant i == 16 * j && j <= BlocksVisited(len)
      invariant data[..] == EcbEncrypt(aes, SECRET_KEY, plain[..i]) + plain[i..]
    {
      AesEcbEncrypt(aes, SECRET_KEY, data, i);
      EcbStep(aes, SECRET_KEY, plain, i);
      i := i + 16;
      j := j + 1;
    }
    assert j == BlocksVisited(len);
    assert plain == old(data[..]);
  }

  /** One iteration of the engine's loop extends the enciphered prefix by one block. */
  lemma EcbStep(aes: Cipher, key: Key, plain: seq<byte>, i: nat)
    requires i % 16 == 0 && i + 16 <= |plain|
    ensures var cur := EcbEncrypt(aes, key, plain[..i]) + plain[i..];
            cur[..i] + aes(key, cur[i..i + 16]) + cur[i + 16..]
            == EcbEncrypt(aes, key, plain[..i + 16]) + plain[i + 16..]
  {
    var blk := plain[i..i + 16];
    var cur := EcbEncrypt(aes, key, plain[..i]) + plain[i..];
    assert cur[..i] == EcbEncrypt(aes, key, plain[..i]);
    assert cur[i..i + 16] == blk;
    assert cur[i + 16..] == plain[i + 16..];
    EcbSingleBlock(aes, key, blk);
    EcbAppend(aes, key, plain[..i], blk);
    assert plain[..i + 16] == plain[..i] + blk;
  }
}
