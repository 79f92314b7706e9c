// Model of the software path of src/Nova/Base/Sha256.cpp: the compression
// function of section 6.2.2 of FIPS 180-4 and its unrolled form.
module Compression {

  import opened Bytes

  type Word = bv32

  const BLOCK: nat := 64

  datatype State = State(a: Word, b: Word, c: Word, d: Word, e: Word, f: Word, g: Word, h: Word)

  const INIT: State :=
    State(0x6a09e667, 0xbb67ae85, 0x3c6ef372, 0xa54ff53a, 0x510e527f, 0x9b05688c, 0x1f83d9ab, 0x5be0cd19)

  const ROUND_CONSTANTS: seq<Word> :=
    [0x428a2f98, 0x71374491, 0xb5c0fbcf, 0xe9b5dba5, 0x3956c25b, 0x59f111f1, 0x923f82a4, 0xab1c5ed5]
    + [0xd807aa98, 0x12835b01, 0x243185be, 0x550c7dc3, 0x72be5d74, 0x80deb1fe, 0x9bdc06a7, 0xc19bf174]
    + [0xe49b69c1, 0xefbe4786, 0x0fc19dc6, 0x240ca1cc, 0x2de92c6f, 0x4a7484aa, 0x5cb0a9dc, 0x76f988da]
    + [0x983e5152, 0xa831c66d, 0xb00327c8, 0xbf597fc7, 0xc6e00bf3, 0xd5a79147, 0x06ca6351, 0x14292967]
    + [0x27b70a85, 0x2e1b2138, 0x4d2c6dfc, 0x53380d13, 0x650a7354, 0x766a0abb, 0x81c2c92e, 0x92722c85]
    + [0xa2bfe8a1, 0xa81a664b, 0xc24b8b70, 0xc76c51a3, 0xd192e819, 0xd6990624, 0xf40e3585, 0x106aa070]
    + [0x19a4c116, 0x1e376c08, 0x2748774c, 0x34b0bcb5, 0x391c0cb3, 0x4ed8aa4a, 0x5b9cca4f, 0x682e6ff3]
    + [0x748f82ee, 0x78a5636f, 0x84c87814, 0x8cc70208, 0x90befffa, 0xa4506ceb, 0xbef9a3f7, 0xc67178f2]

  function RoundConstant(t: nat): Word
    requires t < 64
  {
    assert |ROUND_CONSTANTS| == 64;
    ROUND_CONSTANTS[t]
  }

  function RotR(x: Word, n: Word): Word requires n <= 32 { (x >> n) | (x << (32 - n)) }

  function Ch(x: Word, y: Word, z: Word): Word { (x & y) ^ ((!x) & z) }

  function Maj(x: Word, y: Word, z: Word): Word { (x & y) ^ (x & z) ^ (y & z) }

  function BigSigma0(x: Word): Word { RotR(x, 2) ^ RotR(x, 13) ^ RotR(x, 22) }

  function BigSigma1(x: Word): Word { RotR(x, 6) ^ RotR(x, 11) ^ RotR(x, 25) }

  function SmallSigma0(x: Word): Word { RotR(x, 7) ^ RotR(x, 18) ^ (x >> 3) }

  function SmallSigma1(x: Word): Word { RotR(x, 17) ^ RotR(x, 19) ^ (x >> 10) }

  function LoadBE32(block: seq<Byte>, at: nat): Word
    requires at + 4 <= |block|
  {
    ((block[at] as Word) << 24) | ((block[at + 1] as Word) << 16) | ((block[at + 2] as Word) << 8) | (block[at + 3] as Word)
  }

  function Round(s: State, k: Word, w: Word): State {
    var t1 := s.h + BigSigma1(s.e) + Ch(s.e, s.f, s.g) + k + w;
    var t2 := BigSigma0(s.a) + Maj(s.a, s.b, s.c);
    State(t1 + t2, s.a, s.b, s.c, s.d + t1, s.e, s.f, s.g)
  }

  function Add(s: State, t: State): State {
    State(s.a + t.a, s.b + t.b, s.c + t.c, s.d + t.d, s.e + t.e, s.f + t.f, s.g + t.g, s.h + t.h)
  }

  // ----- the definition -----

  // The message schedule.
  function Schedule(block: seq<Byte>, t: nat): Word
    requires |block| == BLOCK && t < 64
  {
    if t < 16 then LoadBE32(block, 4 * t)
    else
      Mix(Schedule(block, t - 2), Schedule(block, t - 7), Schedule(block, t - 15), Schedule(block, t - 16))
  }

  function Mix(w2: Word, w7: Word, w15: Word, w16: Word): Word {
    SmallSigma1(w2) + w7 + SmallSigma0(w15) + w16
  }

  // The working variables after t rounds.
  function Rounds(s: State, block: seq<Byte>, t: nat): State
    requires |block| == BLOCK && t <= 64
  {
    if t == 0 then s else Round(Rounds(s, block, t - 1), RoundConstant(t - 1), Schedule(block, t - 1))
  }

  function Compress(s: State, block: seq<Byte>): State
    requires |block| == BLOCK
  {
    Add(s, Rounds(s, block, 64))
  }

  // The state after every whole block of the data.
  function Fold(s: State, data: seq<Byte>): State
    requires |data| % BLOCK == 0
  {
    if data == [] then s
    else
      var n := |data| - BLOCK;
      Compress(Fold(s, data[..n]), data[n..])
  }

  lemma {:induction false} FoldConcat(s: State, x: seq<Byte>, y: seq<Byte>)
    requires |x| % BLOCK == 0 && |y| % BLOCK == 0
    ensures |x + y| % BLOCK == 0
    ensures Fold(s, x + y) == Fold(Fold(s, x), y)
    decreases |y|
  {
    hide Compress, Fold;
    Aligned(|x|, |y|);
    if y == [] {
      assert x + y == x;
      FoldNothing(Fold(s, x));
    } else {
      var n := |y| - BLOCK;
      FoldConcat(s, x, y[..n]);
      assert (x + y)[..|x| + n] == x + y[..n];
      assert (x + y)[|x| + n..] == y[n..];
      FoldLast(s, x + y);
      FoldLast(Fold(s, x), y);
    }
  }

  lemma Aligned(m: nat, n: nat)
    requires m % BLOCK == 0 && n % BLOCK == 0
    ensures (m + n) % BLOCK == 0
    ensures n > 0 ==> n >= BLOCK && (n - BLOCK) % BLOCK == 0
  {
  }

  lemma FoldNothing(s: State)
    ensures Fold(s, []) == s
  {
  }

  lemma FoldLast(s: State, data: seq<Byte>)
    requires |data| % BLOCK == 0 && data != []
    ensures |data| >= BLOCK && (|data| - BLOCK) % BLOCK == 0
    ensures Fold(s, data) == Compress(Fold(s, data[..|data| - BLOCK]), data[|data| - BLOCK..])
  {
    hide Compress;
  }

  lemma RoundsNone(s: State, block: seq<Byte>)
    requires |block| == BLOCK
    ensures Rounds(s, block, 0) == s
  {
  }

  lemma RoundsNext(s: State, block: seq<Byte>, t: nat)
    requires |block| == BLOCK && t < 64
    ensures Rounds(s, block, t + 1) == Round(Rounds(s, block, t), RoundConstant(t), Schedule(block, t))
  {
    hide Round, RoundConstant, Schedule;
  }

  // ----- the code -----

  // 64 rounds, unrolled 8 at a time.
  method CompressUnrolled(state: State, block: seq<Byte>) returns (r: State)
    requires |block| == BLOCK
    ensures r == Compress(state, block)
  {
    hide Round, Rounds, Schedule, RoundConstant, Add;
    var w := ExpandSchedule(block);
    var s := state;
    RoundsNone(state, block);
    var i := 0;
    while i < 64
      invariant i <= 64 && i % 8 == 0
      invariant s == Rounds(state, block, i)
    {
      RoundsNext(state, block, i + 0);
      s := Round(s, RoundConstant(i + 0), w[i + 0]);
      RoundsNext(state, block, i + 1);
      s := Round(s, RoundConstant(i + 1), w[i + 1]);
      RoundsNext(state, block, i + 2);
      s := Round(s, RoundConstant(i + 2), w[i + 2]);
      RoundsNext(state, block, i + 3);
      s := Round(s, RoundConstant(i + 3), w[i + 3]);
      RoundsNext(state, block, i + 4);
      s := Round(s, RoundConstant(i + 4), w[i + 4]);
      RoundsNext(state, block, i + 5);
      s := Round(s, RoundConstant(i + 5), w[i + 5]);
      RoundsNext(state, block, i + 6);
      s := Round(s, RoundConstant(i + 6), w[i + 6]);
      RoundsNext(state, block, i + 7);
      s := Round(s, RoundConstant(i + 7), w[i + 7]);
      i := i + 8;
    }
    r := Add(state, s);
  }

  method ExpandSchedule(block: seq<Byte>) returns (w: seq<Word>)
    requires |block| == BLOCK
    ensures |w| == 64
    ensures forall t :: 0 <= t < 64 ==> w[t] == Schedule(block, t)
  {
    hide Mix, LoadBE32;
    var words := new Word[64];
    for i := 0 to 16
      invariant forall t :: 0 <= t < i ==> words[t] == Schedule(block, t)
    {
      words[i] := LoadBE32(block, 4 * i);
    }
    for i := 16 to 64
      invariant forall t :: 0 <= t < i ==> words[t] == Schedule(block, t)
    {
      words[i] := Mix(words[i - 2], words[i - 7], words[i - 15], words[i - 16]);
    }
    w := words[..];
  }
}
