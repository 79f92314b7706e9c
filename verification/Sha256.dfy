// Model of the streaming interface of src/Nova/Base/Sha256.cpp.
module Sha256 {
  import opened Bytes
  import opened Modular
  import opened Compression

  // ----- the definition: padding (section 5.1.1 of FIPS 180-4) and digest -----

  // Number of zero bytes between the 0x80 byte and the length field.
  function PadZeros(n: nat): nat { (119 - n % BLOCK) % BLOCK }

  // It is the least number that puts the length field at the end of a block.
  lemma PadZerosIsLeast(n: nat)
    ensures AtBlockEnd(n, PadZeros(n))
    ensures forall k: nat :: AtBlockEnd(n, k) ==> PadZeros(n) <= k
  {
    var r := n % BLOCK;
    assert PadZeros(n) == if r < 56 then 55 - r else 119 - r;
    SameResidue(n, PadZeros(n));
    forall k: nat | AtBlockEnd(n, k) ensures PadZeros(n) <= k {
      SameResidue(n, k);
    }
  }

  lemma SameResidue(n: nat, k: nat)
    ensures (n + 1 + k) % BLOCK == (n % BLOCK + 1 + k) % BLOCK
  {
    var q := n / BLOCK;
    assert n + 1 + k == (n % BLOCK + 1 + k) + BLOCK * q;
  }

  ghost predicate AtBlockEnd(n: nat, k: nat) { (n + 1 + k) % BLOCK == 56 }

  function BigEndian64(v: nat): (s: seq<Byte>)
    requires v < U64
    ensures |s| == 8
  {
    [ByteAt(v, 7), ByteAt(v, 6), ByteAt(v, 5), ByteAt(v, 4), ByteAt(v, 3), ByteAt(v, 2), ByteAt(v, 1), ByteAt(v, 0)]
  }

  lemma BigEndian64IsNumber(v: nat)
    requires v < U64
    ensures Number(BigEndian64(v)) == v
  {
    assert Shift(v, 7) < 256;
    hide Shift, ByteAt;
    NumberOfBytes(BigEndian64(v), v, 7, 8);
    assert BigEndian64(v)[..8] == BigEndian64(v);
    ShiftNone(v);
  }

  lemma ShiftNone(v: nat)
    ensures Shift(v, 0) == v
  {
  }

  // The padded message is a whole number of blocks.
  lemma PaddingAligns(n: nat)
    ensures (n + (9 + PadZeros(n))) % BLOCK == 0
  {
    var r := n % BLOCK;
    assert n == BLOCK * (n / BLOCK) + r;
    assert r < 56 ==> PadZeros(n) == 55 - r;
    assert r >= 56 ==> PadZeros(n) == 119 - r;
  }

  function Padding(n: nat): (p: seq<Byte>)
    ensures |p| == 9 + PadZeros(n)
  {
    [0x80] + Zeros(PadZeros(n)) + BigEndian64(8 * n % U64)
  }

  function Padded(message: seq<Byte>): (p: seq<Byte>)
    ensures |p| % BLOCK == 0
  {
    PaddingAligns(|message|);
    message + Padding(|message|)
  }

  function ByteOf(w: Word): Byte { (w & 0xFF) as int }

  function StoreBE32(w: Word): seq<Byte> { [ByteOf(w >> 24), ByteOf(w >> 16), ByteOf(w >> 8), ByteOf(w)] }

  function Output(s: State): seq<Byte> {
    StoreBE32(s.a) + StoreBE32(s.b) + StoreBE32(s.c) + StoreBE32(s.d)
    + StoreBE32(s.e) + StoreBE32(s.f) + StoreBE32(s.g) + StoreBE32(s.h)
  }

  function Digest(message: seq<Byte>): seq<Byte> { Output(Fold(INIT, Padded(message))) }

  // ----- the incremental hasher -----

  // `state` has taken in all of `absorbed` but its last bytes, `pending`.
  ghost predicate Holds(absorbed: seq<Byte>, pending: seq<Byte>, state: State) {
    && |pending| <= |absorbed| && (|absorbed| - |pending|) % BLOCK == 0
    && pending == absorbed[|absorbed| - |pending|..]
    && state == Fold(INIT, absorbed[..|absorbed| - |pending|])
  }

  lemma HoldsAppend(absorbed: seq<Byte>, pending: seq<Byte>, state: State, more: seq<Byte>)
    requires Holds(absorbed, pending, state)
    ensures Holds(absorbed + more, pending + more, state)
  {
    hide Fold;
    assert (absorbed + more)[..|absorbed| - |pending|] == absorbed[..|absorbed| - |pending|];
  }

  lemma HoldsFold(absorbed: seq<Byte>, pending: seq<Byte>, state: State, n: nat)
    requires Holds(absorbed, pending, state) && n <= |pending| && n % BLOCK == 0
    ensures Holds(absorbed, pending[n..], Fold(state, pending[..n]))
  {
    hide Fold;
    var done := absorbed[..|absorbed| - |pending|];
    FoldConcat(INIT, done, pending[..n]);
    assert absorbed[..|absorbed| - |pending| + n] == done + pending[..n];
  }

  class Hasher {
    var totalBytes: nat
    const buffer: array<Byte>
    var bufferSize: nat
    var state: State

    // everything hashed since the last reset
    ghost var absorbed: seq<Byte>

    ghost predicate Valid()
      reads this, buffer
    {
      && buffer.Length == BLOCK && bufferSize < BLOCK
      && totalBytes == |absorbed| % U64
      && Holds(absorbed, buffer[..bufferSize], state)
    }

    // Equal to a newly constructed hasher; buffer bytes beyond bufferSize are dead.
    ghost predicate IsFresh()
      reads this
    {
      totalBytes == 0 && bufferSize == 0 && state == INIT && absorbed == []
    }

    constructor ()
      ensures Valid() && IsFresh() && fresh(buffer)
    {
      totalBytes, bufferSize, state := 0, 0, INIT;
      buffer := new Byte[BLOCK](_ => 0);
      absorbed := [];
    }

    method ProcessBlocks(data: seq<Byte>, count: nat)
      requires |data| >= count * BLOCK
      modifies `state
      ensures state == Fold(old(state), data[..count * BLOCK])
    {
      hide Compress;
      for blk := 0 to count
        invariant state == Fold(old(state), data[..blk * BLOCK])
      {
        FoldNext(old(state), data, blk);
        state := CompressUnrolled(state, data[blk * BLOCK..blk * BLOCK + BLOCK]);
      }
    }

    // memcpy and memset into the buffer
    method CopyIn(at: nat, data: seq<Byte>)
      requires at + |data| <= buffer.Length
      modifies buffer
      ensures buffer[..at + |data|] == old(buffer[..at]) + data
    {
      forall k | 0 <= k < |data| {
        buffer[at + k] := data[k];
      }
    }

    method Update(data: seq<Byte>)
      requires Valid()
      modifies this, buffer
      ensures Valid() && absorbed == old(absorbed) + data
    {
      hide Holds;
      if data == [] {
        assert absorbed + data == absorbed;
        return;
      }
      totalBytes := (totalBytes + |data|) % U64;
      HoldsAppend(absorbed, buffer[..bufferSize], state, data);
      absorbed := absorbed + data;
      var rest := FillBuffer(data);
      rest := WholeBlocks(rest);
      if |rest| != 0 {
        assert buffer[..0] + rest == rest;
        CopyIn(0, rest);
        bufferSize := |rest|;
      } else {
        assert buffer[..bufferSize] + rest == buffer[..bufferSize];
      }
    }

    // Complete blocks are processed directly from the input.
    method WholeBlocks(data: seq<Byte>) returns (rest: seq<Byte>)
      requires buffer.Length == BLOCK && bufferSize < BLOCK && Holds(absorbed, buffer[..bufferSize] + data, state)
      requires data != [] ==> bufferSize == 0
      modifies `state
      ensures Holds(absorbed, buffer[..bufferSize] + rest, state) && |rest| < BLOCK
      ensures rest != [] ==> bufferSize == 0
    {
      hide Holds, Fold;
      rest := data;
      if |rest| >= BLOCK {
        assert buffer[..bufferSize] + rest == rest;
        var blocks := |rest| / BLOCK;
        WholeNumber(|rest|);
        HoldsFold(absorbed, rest, state, blocks * BLOCK);
        ProcessBlocks(rest, blocks);
        rest := rest[blocks * BLOCK..];
        assert buffer[..0] + rest == rest;
      }
    }

    // If bytes are buffered, try to complete a block.
    method FillBuffer(data: seq<Byte>) returns (rest: seq<Byte>)
      requires buffer.Length == BLOCK && bufferSize < BLOCK && Holds(absorbed, buffer[..bufferSize] + data, state)
      modifies `bufferSize, `state, buffer
      ensures bufferSize < BLOCK && Holds(absorbed, buffer[..bufferSize] + rest, state)
      ensures rest != [] ==> bufferSize == 0
    {
      hide Holds;
      rest := data;
      if bufferSize != 0 {
        var need := BLOCK - bufferSize;
        var take := if need < |rest| then need else |rest|;
        assert buffer[..bufferSize] + data == buffer[..bufferSize] + data[..take] + data[take..];
        CopyIn(bufferSize, rest[..take]);
        bufferSize := bufferSize + take;
        rest := rest[take..];
        if bufferSize == BLOCK {
          assert buffer[..] == buffer[..bufferSize];
          FlushBlock(rest);
        }
      }
    }

    // A full buffer goes through the compression function.
    method FlushBlock(ghost rest: seq<Byte>)
      requires buffer.Length == BLOCK == bufferSize && Holds(absorbed, buffer[..] + rest, state)
      modifies `bufferSize, `state
      ensures bufferSize == 0 && Holds(absorbed, rest, state) && Holds(absorbed, buffer[..0] + rest, state)
    {
      hide Holds, Fold;
      HoldsFold(absorbed, buffer[..] + rest, state, BLOCK);
      assert (buffer[..] + rest)[..BLOCK] == buffer[..][..1 * BLOCK] && (buffer[..] + rest)[BLOCK..] == rest;
      ProcessBlocks(buffer[..], 1);
      bufferSize := 0;
      assert buffer[..0] + rest == rest;
    }

    method Finalize() returns (digest: seq<Byte>)
      requires Valid()
      modifies this, buffer
      ensures digest == Digest(old(absorbed))
      ensures Valid() && IsFresh()
    {
      hide Holds, Fold, Output, BigEndian64, Zeros;
      ghost var message, pending := absorbed, buffer[..bufferSize];
      HoldsAppend(message, pending, state, Padding(|message|));
      PendingSize(message, pending, state);
      absorbed := Padded(message);
      var totalBits := totalBytes * 8 % U64;
      LengthField(|message|);

      TwoBlocks(|message|, pending);
      ghost var last := pending + Padding(|message|);

      CopyIn(bufferSize, [0x80]);
      bufferSize := bufferSize + 1;
      if bufferSize > 56 {
        last := Zeros(56) + BigEndian64(totalBits);
        CopyIn(bufferSize, Zeros(BLOCK - bufferSize));
        bufferSize := BLOCK;
        assert buffer[..] == buffer[..BLOCK] == pending + [0x80] + Zeros(63 - |pending|);
        FlushBlock(last);
      }
      CopyIn(bufferSize, Zeros(56 - bufferSize));
      assert bufferSize == 0 ==> buffer[..56] == Zeros(56) by { assert buffer[..0] + Zeros(56) == Zeros(56); }
      CopyIn(56, BigEndian64(totalBits));
      bufferSize := BLOCK;
      assert buffer[..] + [] == buffer[..BLOCK] == last;
      FlushBlock([]);
      FinalState(absorbed, state);
      digest := Output(state);
      state, totalBytes, bufferSize, absorbed := INIT, 0, 0, [];
      Nothing();
    }
  }

  lemma WholeNumber(n: nat)
    ensures n / BLOCK * BLOCK <= n < n / BLOCK * BLOCK + BLOCK && (n / BLOCK * BLOCK) % BLOCK == 0
  {
  }

  lemma Nothing()
    ensures Holds([], [], INIT)
  {
  }

  lemma FinalState(absorbed: seq<Byte>, state: State)
    requires Holds(absorbed, [], state)
    ensures |absorbed| % BLOCK == 0 && state == Fold(INIT, absorbed)
  {
    assert absorbed[..|absorbed|] == absorbed;
  }

  lemma PendingSize(absorbed: seq<Byte>, pending: seq<Byte>, state: State)
    requires Holds(absorbed, pending, state) && |pending| < BLOCK
    ensures |pending| == |absorbed| % BLOCK
  {
    hide Fold;
    Remainder(|absorbed|, |pending|);
  }

  lemma Remainder(a: nat, p: nat)
    requires p <= a && (a - p) % BLOCK == 0 && p < BLOCK
    ensures a % BLOCK == p
  {
    var q := (a - p) / BLOCK;
    assert a == BLOCK * q + p;
  }

  lemma LengthField(n: nat)
    ensures n % U64 * 8 % U64 == 8 * n % U64
  {
    var q := n / U64;
    assert 8 * n == 8 * (n % U64) + U64 * (8 * q);
    DropMultiple(8 * (n % U64), 8 * q);
  }

  // The padding fits behind the pending bytes, or spills into a second block.
  lemma TwoBlocks(n: nat, pending: seq<Byte>)
    requires |pending| == n % BLOCK
    ensures |pending| < 56 ==>
              pending + Padding(n) == pending + [0x80] + Zeros(55 - |pending|) + BigEndian64(8 * n % U64)
    ensures |pending| >= 56 ==>
              pending + Padding(n) == (pending + [0x80] + Zeros(63 - |pending|)) + (Zeros(56) + BigEndian64(8 * n % U64))
  {
    if |pending| >= 56 {
      assert Zeros(PadZeros(n)) == Zeros(63 - |pending|) + Zeros(56);
    }
  }

  lemma FoldNext(s: State, data: seq<Byte>, blk: nat)
    requires (blk + 1) * BLOCK <= |data|
    ensures Fold(s, data[..(blk + 1) * BLOCK]) == Compress(Fold(s, data[..blk * BLOCK]), data[blk * BLOCK..blk * BLOCK + BLOCK])
  {
    hide Compress;
    var d := data[..(blk + 1) * BLOCK];
    assert d[..|d| - BLOCK] == data[..blk * BLOCK] && d[|d| - BLOCK..] == data[blk * BLOCK..blk * BLOCK + BLOCK];
  }

  function Concat(chunks: seq<seq<Byte>>): seq<Byte> {
    if chunks == [] then [] else Concat(chunks[..|chunks| - 1]) + chunks[|chunks| - 1]
  }

  // However a message is cut into Update calls, the digest is that of the whole.
  method HashChunks(chunks: seq<seq<Byte>>) returns (digest: seq<Byte>)
    ensures digest == Digest(Concat(chunks))
  {
    hide Digest;
    var hasher := new Hasher();
    for i := 0 to |chunks|
      invariant fresh(hasher) && fresh(hasher.buffer) && hasher.Valid()
      invariant hasher.absorbed == Concat(chunks[..i])
    {
      assert chunks[..i + 1][..i] == chunks[..i];
      hasher.Update(chunks[i]);
    }
    assert chunks[..|chunks|] == chunks;
    digest := hasher.Finalize();
  }

  // ComputeSha256
  method Compute(data: seq<Byte>) returns (digest: seq<Byte>)
    ensures digest == Digest(data)
  {
    hide Digest;
    var hasher := new Hasher();
    hasher.Update(data);
    assert [] + data == data;
    digest := hasher.Finalize();
  }
}
