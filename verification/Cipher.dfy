/**
 The symmetric ciphers of cipher/: a block function chosen by the cipher type, the lazy
 keystream built on it, and encryption by combining data with that stream from offset zero.
 */
module Cipher {
  import opened ByteStrings
  import opened Words
  import opened Keystream
  import ChaCha
  import Gimli

  datatype CipherType = ChaCha20 | GimliCipher

  function BlockSize(ct: CipherType): nat {
    if ct.ChaCha20? then 64 else 48
  }

  /** The block function behind the keystream of a key and nonce. */
  function BlocksOf(ct: CipherType, key: Key, nonce: Nonce): Generator {
    if ct.ChaCha20? then (i: int) => ChaCha.Block(key, nonce, i)
    else (i: int) => Gimli.Block(key, nonce, i)
  }

  lemma BlocksAreGood(ct: CipherType, key: Key, nonce: Nonce)
    ensures GoodGenerator(BlocksOf(ct, key, nonce), BlockSize(ct))
  {
    hide ChaCha.Block, Gimli.Block;
    var gen := BlocksOf(ct, key, nonce);
    forall i
      ensures |gen(i)| == BlockSize(ct)
    {
    }
  }

  /** What Encrypt and Decrypt both return for data. */
  ghost function Process(ct: CipherType, key: Key, nonce: Nonce, data: Bytes): (r: Bytes)
    ensures |r| == |data|
  {
    BlocksAreGood(ct, key, nonce);
    Masked(BlocksOf(ct, key, nonce), BlockSize(ct), data, 0)
  }

  /** Decrypting what was encrypted under the same key and nonce restores it, for both ciphers. */
  lemma ProcessTwice(ct: CipherType, key: Key, nonce: Nonce, data: Bytes)
    ensures Process(ct, key, nonce, Process(ct, key, nonce, data)) == data
  {
    BlocksAreGood(ct, key, nonce);
    MaskedTwice(BlocksOf(ct, key, nonce), BlockSize(ct), data, 0);
  }

  /** The source's encryption: a fresh lazy keystream, combined with the data from offset zero. */
  method ProcessData(ct: CipherType, key: Key, nonce: Nonce, data: seq<bv8>) returns (out: seq<bv8>)
    ensures out == Process(ct, key, nonce, data)
  {
    hide BlocksOf, Masked, GoodGenerator;
    BlocksAreGood(ct, key, nonce);
    var keystream := new LazyKeystream(BlockSize(ct), BlocksOf(ct, key, nonce));
    var buffer := new bv8[|data|](i requires 0 <= i < |data| => data[i]);
    assert buffer[..] == data;
    var result := keystream.Xor(buffer, 0);
    out := result[..];
  }

  /** Byte p of the ChaCha20 keystream equals byte p + 2^38: the block counter has 32 bits. */
  lemma ChaChaStreamPeriod(key: Key, nonce: Nonce, p: nat)
    ensures GoodGenerator(BlocksOf(ChaCha20, key, nonce), 64)
    ensures var gen := BlocksOf(ChaCha20, key, nonce);
            StreamAt(gen, 64, p + 0x40_0000_0000) == StreamAt(gen, 64, p)
  {
    hide ChaCha.Block;
    var gen := BlocksOf(ChaCha20, key, nonce);
    BlocksAreGood(ChaCha20, key, nonce);
    forall i
      ensures gen(i + WORD_RANGE) == gen(i)
    {
      ChaCha.BlockPeriod(key, nonce, i);
    }
    StreamPeriod(gen, 64, WORD_RANGE, p);
  }

  /**
   Under one key the Gimli cipher never uses a keystream block twice: equal blocks mean the
   same nonce and the same block number modulo 2^32.
   */
  lemma GimliBlocksDistinct(key: Key, nonce: Nonce, i: nat, nonce': Nonce, i': nat)
    requires i < WORD_RANGE && i' < WORD_RANGE
    requires nonce != nonce' || i != i'
    ensures BlocksOf(GimliCipher, key, nonce)(i) != BlocksOf(GimliCipher, key, nonce')(i')
  {
    hide Gimli.Block;
    Gimli.BlockInjective(key, nonce, i, key, nonce', i');
  }
}
