/** FSChaCha20 (crypto/chacha20.py): the rekeying stream cipher that encrypts packet lengths.

    The block function is a parameter: everything here holds for every function of
    (key, nonce, counter) with 64-byte output, so in particular for `chacha20_block`. */
module StreamCipher {
  import opened Bytes
  import opened Bits
  import opened Arith

  const REKEY_INTERVAL := 224

  ghost predicate Has64ByteBlocks(f: (bytes, bytes, nat) -> bytes) {
    forall key, nonce, cnt :: |f(key, nonce, cnt)| == 64
  }

  type Block = f: (bytes, bytes, nat) -> bytes | Has64ByteBlocks(f)
    ghost witness (key: bytes, nonce: bytes, cnt: nat) => Zeros(64)

  // ---- The plain keystream of one epoch, and the cipher as a position in it

  /** The nonce of every block of an epoch: four zero bytes, then the epoch number. */
  function EpochNonce(epoch: nat): (r: bytes)
    requires epoch < U64
    ensures |r| == 12 && FromLE(r[..4]) == 0 && FromLE(r[4..]) == epoch
  {
    var r := LE32(0) + LE64(epoch);
    assert r[..4] == LE32(0) && r[4..] == LE64(epoch);
    r
  }

  /** Byte `j` of the plain ChaCha20 keystream of an epoch. */
  function KeystreamByte(block: Block, key: bytes, epoch: nat, j: nat): byte
    requires epoch < U64
  {
    block(key, EpochNonce(epoch), j / 64)[j % 64]
  }

  /** Bytes `from .. from + n` of the plain keystream of an epoch. */
  function Keystream(block: Block, key: bytes, epoch: nat, from: nat, n: nat): (r: bytes)
    requires epoch < U64
    ensures |r| == n
    ensures forall i :: 0 <= i < n ==> r[i] == KeystreamByte(block, key, epoch, from + i)
  {
    seq<byte>(n, i requires 0 <= i < n => KeystreamByte(block, key, epoch, from + i))
  }

  /** Where the cipher stands: the epoch's key, the chunks crypted so far, and how many
      keystream bytes of the current epoch have been used. */
  datatype Position = Position(key: bytes, chunks: nat, used: nat)

  /** One call of `crypt`, with no buffering: take the next keystream bytes; at the end of an
      epoch the following 32 bytes become the next key. */
  function CryptSpec(block: Block, interval: nat, p: Position, chunk: bytes): (r: (bytes, Position))
    requires interval > 0 && p.chunks / interval < U64
    ensures |r.0| == |chunk|
  {
    var epoch := p.chunks / interval;
    var text := XorBytes(chunk, Keystream(block, p.key, epoch, p.used, |chunk|));
    var used := p.used + |chunk|;
    if (p.chunks + 1) % interval == 0 then
      (text, Position(Keystream(block, p.key, epoch, used, 32), p.chunks + 1, 0))
    else
      (text, Position(p.key, p.chunks + 1, used))
  }

  /** The number of 64-byte blocks that must have been generated to use `used` bytes. */
  function BlocksFor(used: nat): nat {
    (used + 63) / 64
  }

  class FSChaCha20 {
    const block: Block
    const rekeyInterval: nat
    var key: bytes
    var blockCounter: nat
    var chunkCounter: nat
    var keystream: bytes

    /** The buffer is the unused tail of the blocks generated in this epoch. */
    ghost predicate Valid()
      reads this
    {
      && rekeyInterval > 0
      && |keystream| < 64
      && |keystream| <= 64 * blockCounter
      && (chunkCounter / rekeyInterval < U64 ==>
           keystream == Keystream(block, key, chunkCounter / rekeyInterval, Used(), |keystream|))
    }

    ghost function Used(): int
      reads this
    {
      64 * blockCounter - |keystream|
    }

    ghost function Pos(): Position
      requires Valid()
      reads this
    {
      Position(key, chunkCounter, Used())
    }

    constructor (block: Block, initialKey: bytes, rekeyInterval: nat := REKEY_INTERVAL)
      requires rekeyInterval > 0
      ensures Valid() && Pos() == Position(initialKey, 0, 0)
      ensures this.block == block && this.rekeyInterval == rekeyInterval
    {
      this.block := block;
      this.rekeyInterval := rekeyInterval;
      this.key := initialKey;
      this.blockCounter := 0;
      this.chunkCounter := 0;
      this.keystream := [];
    }

    method GetKeystreamBytes(nbytes: nat) returns (ret: bytes)
      requires Valid()
      requires chunkCounter / rekeyInterval < U64
      modifies this`blockCounter, this`keystream
      ensures Valid()
      ensures ret == Keystream(block, key, chunkCounter / rekeyInterval, old(Used()), nbytes)
      ensures Used() == old(Used()) + nbytes
      ensures blockCounter == BlocksFor(Used())
    {
      hide FromLE, LE64;
      var epoch := chunkCounter / rekeyInterval;
      ghost var used := Used();
      while |keystream| < nbytes
        invariant |keystream| <= 64 * blockCounter
        invariant |keystream| < nbytes + 64
        invariant Used() == used
        invariant keystream == Keystream(block, key, epoch, used, |keystream|)
      {
        var nonce := LE32(0) + LE64(epoch);
        KeystreamExtend(block, key, epoch, used, |keystream|, blockCounter);
        keystream := keystream + block(key, nonce, blockCounter);
        blockCounter := blockCounter + 1;
      }
      KeystreamSplit(block, key, epoch, used, nbytes, |keystream| - nbytes);
      ret := keystream[..nbytes];
      keystream := keystream[nbytes..];
    }

    method Crypt(chunk: bytes) returns (ret: bytes)
      requires Valid()
      requires chunkCounter / rekeyInterval < U64
      modifies this
      ensures Valid()
      ensures (ret, Pos()) == CryptSpec(block, rekeyInterval, old(Pos()), chunk)
    {
      var ks := GetKeystreamBytes(|chunk|);
      ret := XorBytes(chunk, ks);
      NextEpoch(chunkCounter, rekeyInterval);
      if (chunkCounter + 1) % rekeyInterval == 0 {
        key := GetKeystreamBytes(32);
        blockCounter := 0;
        keystream := [];
      }
      chunkCounter := chunkCounter + 1;
    }
  }

  /** Appending the next block extends a keystream that ends at a block boundary. */
  lemma KeystreamExtend(block: Block, key: bytes, epoch: nat, from: nat, n: nat, cnt: nat)
    requires epoch < U64 && from + n == 64 * cnt
    ensures Keystream(block, key, epoch, from, n) + block(key, EpochNonce(epoch), cnt)
         == Keystream(block, key, epoch, from, n + 64)
  {
    var next := block(key, EpochNonce(epoch), cnt);
    var longer := Keystream(block, key, epoch, from, n + 64);
    forall j | 0 <= j < 64
      ensures next[j] == longer[n + j]
    {
      assert longer[n + j] == KeystreamByte(block, key, epoch, 64 * cnt + j);
    }
  }

  lemma KeystreamSplit(block: Block, key: bytes, epoch: nat, from: nat, a: nat, b: nat)
    requires epoch < U64
    ensures Keystream(block, key, epoch, from, a + b)
         == Keystream(block, key, epoch, from, a) + Keystream(block, key, epoch, from + a, b)
  {
    var l, r := Keystream(block, key, epoch, from, a), Keystream(block, key, epoch, from + a, b);
    forall i | a <= i < a + b
      ensures (l + r)[i] == KeystreamByte(block, key, epoch, from + i)
    {
      assert (l + r)[i] == r[i - a];
    }
  }

  /** The epoch number changes exactly when the successor is a multiple of the interval. */
  lemma NextEpoch(n: nat, interval: nat)
    requires interval > 0
    ensures (n + 1) / interval == if (n + 1) % interval == 0 then n / interval + 1 else n / interval
    ensures (n + 1) % interval == if (n + 1) % interval == 0 then 0 else n % interval + 1
  {
    var q, r := n / interval, n % interval;
    assert n == q * interval + r;
    if r + 1 == interval {
      assert n + 1 == (q + 1) * interval;
      DivModUnique(n + 1, interval, q + 1, 0);
    } else {
      DivModUnique(n + 1, interval, q, r + 1);
    }
  }
}
