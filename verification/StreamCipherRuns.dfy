/** Whole runs of FSChaCha20: the buffered, rekeying cipher is a slicing of plain keystreams. */
module StreamCipherRuns {
  import opened Bytes
  import opened Bits
  import opened Arith
  import opened StreamCipher

  /** A run must not outlast the 64-bit epoch number. */
  predicate InRange(interval: nat, n: nat) {
    interval > 0 && n <= interval * U64
  }

  lemma EpochFits(interval: nat, n: nat, i: nat)
    requires InRange(interval, n) && i < n
    ensures i / interval < U64
  {
    var q := i / interval;
    assert i == q * interval + i % interval;
    if q >= U64 { MulMono(U64, q, interval); }
  }

  /** The cipher's position after the first `n` chunks of a run from the initial key. */
  function PositionAt(block: Block, interval: nat, key: bytes, chunks: seq<bytes>, n: nat): Position
    requires n <= |chunks| && InRange(interval, |chunks|)
    ensures PositionAt(block, interval, key, chunks, n).chunks == n
  {
    if n == 0 then Position(key, 0, 0)
    else
      EpochFits(interval, |chunks|, n - 1);
      CryptSpec(block, interval, PositionAt(block, interval, key, chunks, n - 1), chunks[n - 1]).1
  }

  /** What the `i`-th call of `crypt` returns. */
  function OutputAt(block: Block, interval: nat, key: bytes, chunks: seq<bytes>, i: nat): (r: bytes)
    requires i < |chunks| && InRange(interval, |chunks|)
    ensures |r| == |chunks[i]|
  {
    EpochFits(interval, |chunks|, i);
    CryptSpec(block, interval, PositionAt(block, interval, key, chunks, i), chunks[i]).0
  }

  function RunOutputs(block: Block, interval: nat, key: bytes, chunks: seq<bytes>): (r: seq<bytes>)
    requires InRange(interval, |chunks|)
    ensures |r| == |chunks|
    ensures forall i :: 0 <= i < |r| ==> r[i] == OutputAt(block, interval, key, chunks, i)
  {
    seq(|chunks|, i requires 0 <= i < |chunks| => OutputAt(block, interval, key, chunks, i))
  }

  // ---- Independent description: each epoch is one plain keystream

  function TotalLen(chunks: seq<bytes>): nat {
    if chunks == [] then 0 else TotalLen(chunks[..|chunks| - 1]) + |chunks[|chunks| - 1]|
  }

  /** Index of the first chunk of epoch `e`. */
  function EpochStart(interval: nat, e: nat): nat { e * interval }

  lemma EpochStartBound(interval: nat, n: nat)
    requires interval > 0
    ensures EpochStart(interval, n / interval) <= n
  {
    assert n == (n / interval) * interval + n % interval;
  }

  /** Bytes of its epoch that precede chunk `i`. */
  function Offset(interval: nat, chunks: seq<bytes>, i: nat): nat
    requires i <= |chunks| && interval > 0
  {
    EpochStartBound(interval, i);
    TotalLen(chunks[EpochStart(interval, i / interval)..i])
  }

  /** All the data bytes of a complete epoch. */
  function EpochLen(interval: nat, chunks: seq<bytes>, e: nat): nat
    requires EpochStart(interval, e + 1) <= |chunks| && interval > 0
  {
    assert EpochStart(interval, e) <= EpochStart(interval, e + 1);
    TotalLen(chunks[EpochStart(interval, e)..EpochStart(interval, e + 1)])
  }

  /** The key of epoch `e`: 32 keystream bytes that follow the data of the epoch before. */
  function EpochKey(block: Block, interval: nat, key: bytes, chunks: seq<bytes>, e: nat): bytes
    requires InRange(interval, |chunks|) && EpochStart(interval, e) <= |chunks|
  {
    if e == 0 then key
    else
      EpochStartMono(interval, e - 1, |chunks|);
      Keystream(block, EpochKey(block, interval, key, chunks, e - 1), e - 1,
                EpochLen(interval, chunks, e - 1), 32)
  }

  lemma EpochStartMono(interval: nat, e: nat, n: nat)
    requires InRange(interval, n) && EpochStart(interval, e + 1) <= n
    ensures EpochStart(interval, e) < EpochStart(interval, e + 1)
    ensures e < U64
  {
    assert EpochStart(interval, e + 1) == EpochStart(interval, e) + interval;
    DivModUnique(EpochStart(interval, e), interval, e, 0);
    EpochFits(interval, n, EpochStart(interval, e));
  }

  lemma TotalLenSnoc(chunks: seq<bytes>, a: nat, n: nat)
    requires a <= n < |chunks|
    ensures TotalLen(chunks[a..n + 1]) == TotalLen(chunks[a..n]) + |chunks[n]|
  {
    assert chunks[a..n + 1][..n - a] == chunks[a..n];
  }

  /** Where a chunk stops is where the next chunk of its epoch, or the next key, starts. */
  lemma OffsetNext(interval: nat, chunks: seq<bytes>, n: nat)
    requires n < |chunks| && interval > 0
    ensures (n + 1) % interval == 0 ==>
      && EpochStart(interval, n / interval + 1) == n + 1
      && EpochLen(interval, chunks, n / interval) == Offset(interval, chunks, n) + |chunks[n]|
      && Offset(interval, chunks, n + 1) == 0
    ensures (n + 1) % interval != 0 ==>
      Offset(interval, chunks, n + 1) == Offset(interval, chunks, n) + |chunks[n]|
  {
    EpochStartBound(interval, n);
    EpochStartBound(interval, n + 1);
    NextEpoch(n, interval);
    var e := n / interval;
    TotalLenSnoc(chunks, EpochStart(interval, e), n);
    if (n + 1) % interval == 0 {
      assert n + 1 == ((n + 1) / interval) * interval;
      assert chunks[n + 1..n + 1] == [];
    }
  }

  /** One call, from the closed form of a position to the closed form of the next. */
  lemma PositionStep(block: Block, interval: nat, key: bytes, chunks: seq<bytes>, n: nat)
    requires n < |chunks| && InRange(interval, |chunks|)
    ensures n / interval < U64
    ensures EpochStart(interval, n / interval) <= |chunks|
    ensures EpochStart(interval, (n + 1) / interval) <= |chunks|
    ensures CryptSpec(block, interval,
                      Position(EpochKey(block, interval, key, chunks, n / interval), n, Offset(interval, chunks, n)),
                      chunks[n]).1
         == Position(EpochKey(block, interval, key, chunks, (n + 1) / interval), n + 1, Offset(interval, chunks, n + 1))
  {
    hide Keystream, XorBytes, Offset, EpochLen;
    EpochStartBound(interval, n);
    EpochStartBound(interval, n + 1);
    NextEpoch(n, interval);
    OffsetNext(interval, chunks, n);
    EpochFits(interval, |chunks|, n);
  }

  /** The state after any number of calls, in closed form. */
  lemma {:induction false} PositionClosedForm(block: Block, interval: nat, key: bytes, chunks: seq<bytes>, n: nat)
    requires n <= |chunks| && InRange(interval, |chunks|)
    ensures EpochStart(interval, n / interval) <= |chunks|
    ensures PositionAt(block, interval, key, chunks, n)
         == Position(EpochKey(block, interval, key, chunks, n / interval), n, Offset(interval, chunks, n))
  {
    hide CryptSpec, Keystream;
    EpochStartBound(interval, n);
    if n == 0 {
      DivModUnique(0, interval, 0, 0);
      assert chunks[0..0] == [];
    } else {
      PositionClosedForm(block, interval, key, chunks, n - 1);
      PositionStep(block, interval, key, chunks, n - 1);
    }
  }

  /** Every call returns its chunk combined with the slice of its epoch's plain keystream
      that starts where the previous chunk of the epoch stopped. */
  lemma OutputIsKeystreamSlice(block: Block, interval: nat, key: bytes, chunks: seq<bytes>, i: nat)
    requires i < |chunks| && InRange(interval, |chunks|)
    ensures i / interval < U64
    ensures EpochStart(interval, i / interval) <= |chunks|
    ensures RunOutputs(block, interval, key, chunks)[i]
         == XorBytes(chunks[i], Keystream(block, EpochKey(block, interval, key, chunks, i / interval),
                                          i / interval, Offset(interval, chunks, i), |chunks[i]|))
  {
    EpochFits(interval, |chunks|, i);
    PositionClosedForm(block, interval, key, chunks, i);
  }

  lemma {:induction false} TotalLenSplit(chunks: seq<bytes>, k: nat)
    requires k <= |chunks|
    ensures TotalLen(chunks) == TotalLen(chunks[..k]) + TotalLen(chunks[k..])
  {
    if k == |chunks| {
      assert chunks[..k] == chunks && chunks[k..] == [];
    } else {
      var m := |chunks| - 1;
      TotalLenSplit(chunks[..m], k);
      assert chunks[..m][..k] == chunks[..k] && chunks[..m][k..] == chunks[k..m];
      assert chunks[k..][..m - k] == chunks[k..m];
    }
  }

  /** No keystream byte encrypts two data bytes, and none that becomes key material encrypts any. */
  lemma NoKeystreamReuse(interval: nat, chunks: seq<bytes>, i: nat, a: nat, j: nat, b: nat)
    requires InRange(interval, |chunks|)
    requires i < j < |chunks| && a < |chunks[i]| && b < |chunks[j]|
    ensures (i / interval, Offset(interval, chunks, i) + a) != (j / interval, Offset(interval, chunks, j) + b)
  {
    if i / interval == j / interval {
      OffsetStep(interval, chunks, i, j);
    }
  }

  lemma OffsetStep(interval: nat, chunks: seq<bytes>, i: nat, j: nat)
    requires interval > 0 && i < j <= |chunks| && i / interval == j / interval
    ensures Offset(interval, chunks, i) + |chunks[i]| <= Offset(interval, chunks, j)
  {
    EpochStartBound(interval, i);
    var start := EpochStart(interval, i / interval);
    TotalLenSplit(chunks[start..j], i + 1 - start);
    assert chunks[start..j][..i + 1 - start] == chunks[start..i + 1];
    TotalLenSnoc(chunks, start, i);
  }

  lemma KeyBytesFollowData(interval: nat, chunks: seq<bytes>, i: nat, a: nat)
    requires InRange(interval, |chunks|)
    requires i < |chunks| && a < |chunks[i]|
    requires EpochStart(interval, i / interval + 1) <= |chunks|
    ensures Offset(interval, chunks, i) + a < EpochLen(interval, chunks, i / interval)
  {
    var e := i / interval;
    EpochStartBound(interval, i);
    var start, end := EpochStart(interval, e), EpochStart(interval, e + 1);
    MulDistrib(e, 1, interval);
    assert i == start + i % interval;
    TotalLenSplit(chunks[start..end], i + 1 - start);
    assert chunks[start..end][..i + 1 - start] == chunks[start..i + 1];
    TotalLenSnoc(chunks, start, i);
  }

  lemma EpochNonceInjective(e: nat, f: nat)
    requires e < U64 && f < U64
    requires EpochNonce(e) == EpochNonce(f)
    ensures e == f
  {
    assert EpochNonce(e)[4..] == LE64(e) && EpochNonce(f)[4..] == LE64(f);
  }

  // ---- Two instances with the same key undo each other

  lemma CryptMovesByLength(block: Block, interval: nat, p: Position, chunk: bytes, other: bytes)
    requires interval > 0 && p.chunks / interval < U64 && |chunk| == |other|
    ensures CryptSpec(block, interval, p, chunk).1 == CryptSpec(block, interval, p, other).1
  {}

  lemma {:induction false} PositionDependsOnLengths(block: Block, interval: nat, key: bytes,
                                                    chunks: seq<bytes>, others: seq<bytes>, n: nat)
    requires n <= |chunks| == |others| && InRange(interval, |chunks|)
    requires forall i :: 0 <= i < |chunks| ==> |chunks[i]| == |others[i]|
    ensures PositionAt(block, interval, key, chunks, n) == PositionAt(block, interval, key, others, n)
  {
    hide CryptSpec;
    if n > 0 {
      PositionDependsOnLengths(block, interval, key, chunks, others, n - 1);
      EpochFits(interval, |chunks|, n - 1);
      CryptMovesByLength(block, interval, PositionAt(block, interval, key, chunks, n - 1),
                         chunks[n - 1], others[n - 1]);
    }
  }

  /** From one position, `crypt` undoes itself and both calls leave the same position. */
  lemma CryptInverts(block: Block, interval: nat, p: Position, chunk: bytes)
    requires interval > 0 && p.chunks / interval < U64
    ensures CryptSpec(block, interval, p, CryptSpec(block, interval, p, chunk).0)
         == (chunk, CryptSpec(block, interval, p, chunk).1)
  {
    XorBytesCancel(chunk, Keystream(block, p.key, p.chunks / interval, p.used, |chunk|));
  }

  lemma OutputInverts(block: Block, interval: nat, key: bytes, chunks: seq<bytes>, out: seq<bytes>, i: nat)
    requires i < |chunks| == |out| && InRange(interval, |chunks|)
    requires forall j :: 0 <= j < |chunks| ==> |chunks[j]| == |out[j]|
    requires out[i] == OutputAt(block, interval, key, chunks, i)
    ensures OutputAt(block, interval, key, out, i) == chunks[i]
  {
    PositionDependsOnLengths(block, interval, key, chunks, out, i);
    EpochFits(interval, |chunks|, i);
    CryptInverts(block, interval, PositionAt(block, interval, key, chunks, i), chunks[i]);
  }

  /** Decrypting the outputs of a run, call by call, gives back its chunks. */
  lemma RunInverts(block: Block, interval: nat, key: bytes, chunks: seq<bytes>)
    requires InRange(interval, |chunks|)
    ensures RunOutputs(block, interval, key, RunOutputs(block, interval, key, chunks)) == chunks
  {
    var out := RunOutputs(block, interval, key, chunks);
    forall i | 0 <= i < |chunks|
      ensures OutputAt(block, interval, key, out, i) == chunks[i]
    {
      OutputInverts(block, interval, key, chunks, out, i);
    }
  }

  // ---- The packet length cipher: 3-byte chunks, 224 per epoch

  lemma {:induction false} TotalLenUniform(chunks: seq<bytes>, w: nat)
    requires forall c :: c in chunks ==> |c| == w
    ensures TotalLen(chunks) == |chunks| * w
  {
    if chunks != [] {
      var m := |chunks| - 1;
      TotalLenUniform(chunks[..m], w);
      assert chunks[m] in chunks;
      MulDistrib(m, 1, w);
    }
  }

  /** An epoch of 224 length fields and the new key use exactly the 11 blocks generated. */
  lemma LengthEpochDrawsElevenBlocks(chunks: seq<bytes>, e: nat)
    requires InRange(REKEY_INTERVAL, |chunks|) && EpochStart(REKEY_INTERVAL, e + 1) <= |chunks|
    requires forall c :: c in chunks ==> |c| == 3
    ensures BlocksFor(EpochLen(REKEY_INTERVAL, chunks, e) + 32) == 11
    ensures EpochLen(REKEY_INTERVAL, chunks, e) + 32 == 64 * 11
  {
    TotalLenUniform(chunks[EpochStart(REKEY_INTERVAL, e)..EpochStart(REKEY_INTERVAL, e + 1)], 3);
  }
}
