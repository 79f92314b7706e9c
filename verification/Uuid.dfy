// Model of src/Nova/Base/Uuid.cpp. The clock and the random stream are
// parameters. The logical timestamp is a mathematical integer; the 48-bit mask
// of the source is explicit.
module Uuid {
  import opened Bytes

  const U48: nat := 0x1_0000_0000_0000
  const SEQUENCES: nat := 4096

  type Random = x: nat | x < 0x1_0000_0000_0000_0000

  // ----- generation -----

  datatype State = State(lastMs: nat, counter: nat)

  const FIRST: State := State(0, 0)

  function Advance(s: State, clock: nat): State {
    var now := if clock > s.lastMs then clock else s.lastMs;
    if now == s.lastMs then
      if s.counter == SEQUENCES - 1 then State(s.lastMs + 1, 0) else State(s.lastMs, s.counter + 1)
    else State(now, 0)
  }

  // Bytes k, k - 1, ..., 0 of v.
  function Field(v: nat, k: nat): (f: seq<Byte>)
    requires k <= 7
    ensures |f| == k + 1 && forall i :: 0 <= i <= k ==> f[i] == ByteAt(v, k - i)
  {
    if k == 0 then [ByteAt(v, 0)] else [ByteAt(v, k)] + Field(v, k - 1)
  }

  // 48 bits of time, version and sequence, variant and random bits: figure of
  // section 5.7 of RFC 9562.
  function Encode(s: State, random: Random): (u: seq<Byte>)
    requires s.counter < SEQUENCES
    ensures |u| == 16 && u[6] / 16 == 7 && u[8] / 64 == 2
  {
    Field(s.lastMs % U48, 5) + [0x70 + s.counter / 256, s.counter % 256]
    + [0x80 + ByteAt(random, 7) % 64] + Field(random, 6)
  }

  predicate IsVersion7(u: seq<Byte>) requires |u| == 16 { u[6] / 16 == 7 }

  predicate HasRfcVariant(u: seq<Byte>) requires |u| == 16 { u[8] / 64 == 2 }

  predicate IsNil(u: seq<Byte>) { forall i :: 0 <= i < |u| ==> u[i] == 0 }

  predicate IsValidV7(u: seq<Byte>) requires |u| == 16 { !IsNil(u) && IsVersion7(u) && HasRfcVariant(u) }

  lemma Version7(s: State, random: Random)
    requires s.counter < SEQUENCES
    ensures IsValidV7(Encode(s, random))
  {
    hide Encode;
    assert Encode(s, random)[6] != 0;
  }

  // Only the low 48 bits of the timestamp are written.
  lemma Masked(s: State, random: Random)
    requires s.counter < SEQUENCES
    ensures Encode(State(s.lastMs % U48, s.counter), random) == Encode(s, random)
  {
    hide ByteAt;
  }

  class Generator {
    var lastTimestampMs: nat
    var sequenceCounter: nat

    ghost predicate Valid() reads this { sequenceCounter < SEQUENCES }

    ghost function View(): State reads this { State(lastTimestampMs, sequenceCounter) }

    constructor ()
      ensures Valid() && View() == FIRST
    {
      lastTimestampMs, sequenceCounter := 0, 0;
    }

    method Generate(clock: nat, random: Random) returns (u: seq<Byte>)
      requires Valid()
      modifies this
      ensures Valid() && View() == Advance(old(View()), clock)
      ensures u == Encode(View(), random) && IsValidV7(u)
    {
      hide Encode;
      var now := if clock > lastTimestampMs then clock else lastTimestampMs;
      if now == lastTimestampMs {
        if sequenceCounter == 0x0FFF {
          now := lastTimestampMs + 1;
          sequenceCounter := 0;
        } else {
          sequenceCounter := sequenceCounter + 1;
        }
      } else {
        sequenceCounter := 0;
      }
      lastTimestampMs := now;
      u := Layout(now % U48, sequenceCounter, random);
      Masked(View(), random);
      Version7(View(), random);
    }
  }

  // Sixteen bytes that hold each field in its place are the encoding.
  lemma Assembled(u: seq<Byte>, s: State, random: Random)
    requires |u| == 16 && s.counter < SEQUENCES && s.lastMs < U48
    requires u[0] == ByteAt(s.lastMs, 5) && u[1] == ByteAt(s.lastMs, 4) && u[2] == ByteAt(s.lastMs, 3)
    requires u[3] == ByteAt(s.lastMs, 2) && u[4] == ByteAt(s.lastMs, 1) && u[5] == ByteAt(s.lastMs, 0)
    requires u[6] == 0x70 + s.counter / 256 && u[7] == s.counter % 256 && u[8] == 0x80 + ByteAt(random, 7) % 64
    requires u[9] == ByteAt(random, 6) && u[10] == ByteAt(random, 5) && u[11] == ByteAt(random, 4)
    requires u[12] == ByteAt(random, 3) && u[13] == ByteAt(random, 2) && u[14] == ByteAt(random, 1)
    requires u[15] == ByteAt(random, 0)
    ensures u == Encode(s, random)
  {
    hide Shift, ByteAt;
    assert u[..6] == Field(s.lastMs, 5);
    assert u[9..] == Field(random, 6);
    assert u == u[..6] + [u[6], u[7]] + [u[8]] + u[9..];
  }

  // The byte array: filled field by field, then version and variant bits set.
  method Layout(t: nat, counter: nat, random: Random) returns (u: seq<Byte>)
    requires t < U48 && counter < SEQUENCES
    ensures u == Encode(State(t, counter), random)
  {
    hide Shift, ByteAt, Encode;
    assert counter / 256 % 16 == counter / 256 && counter / 256 % 16 % 16 == counter / 256;
    var bytes := new Byte[16](_ => 0);
    bytes[0], bytes[1], bytes[2] := ByteAt(t, 5), ByteAt(t, 4), ByteAt(t, 3);
    bytes[3], bytes[4], bytes[5] := ByteAt(t, 2), ByteAt(t, 1), ByteAt(t, 0);
    bytes[6], bytes[7] := counter / 256 % 16, counter % 256;
    bytes[8], bytes[9], bytes[10], bytes[11] := ByteAt(random, 7), ByteAt(random, 6), ByteAt(random, 5), ByteAt(random, 4);
    bytes[12], bytes[13], bytes[14], bytes[15] := ByteAt(random, 3), ByteAt(random, 2), ByteAt(random, 1), ByteAt(random, 0);
    bytes[6] := bytes[6] % 16 + 0x70;
    bytes[8] := bytes[8] % 64 + 0x80;
    u := bytes[..];
    Assembled(u, State(t, counter), random);
  }

  // ----- order -----

  function Ticks(s: State): nat { s.lastMs * SEQUENCES + s.counter }

  // The number the first eight bytes spell: timestamp, version, sequence.
  lemma {:induction false} PrefixNumber(s: State, random: Random)
    requires s.counter < SEQUENCES && s.lastMs < U48
    ensures Number(Encode(s, random)[..8]) == s.lastMs * 0x1_0000 + 0x7000 + s.counter
  {
    hide Shift, ByteAt;
    var u := Encode(s, random);
    assert forall i :: 0 <= i <= 5 ==> u[i] == Field(s.lastMs, 5)[i];
    KeyNumber(u, s);
  }

  lemma {:induction false} KeyNumber(u: seq<Byte>, s: State)
    requires s.counter < SEQUENCES && s.lastMs < U48 && |u| == 16
    requires forall i :: 0 <= i <= 5 ==> u[i] == ByteAt(s.lastMs, 5 - i)
    requires u[6] == 0x70 + s.counter / 256 && u[7] == s.counter % 256
    ensures Number(u[..8]) == s.lastMs * 0x1_0000 + 0x7000 + s.counter
  {
    var t, high := s.lastMs, s.counter / 256;
    assert Shift(t, 5) < 256 && Shift(t, 0) == t;
    hide Shift, ByteAt, Number;
    NumberOfBytes(u, t, 5, 6);
    NumberStep(u, 7, t, t * 256 + 0x70 + high);
    NumberStep(u, 8, t * 256 + 0x70 + high, t * 0x1_0000 + 0x7000 + s.counter);
  }

  // Below 2^48 ms, later ticks give larger UUIDs, whatever the random parts.
  lemma {:induction false} TicksOrderUuids(s: State, r: Random, t: State, q: Random)
    requires s.counter < SEQUENCES && t.counter < SEQUENCES && s.lastMs < U48 && t.lastMs < U48
    requires Ticks(s) < Ticks(t)
    ensures Less(Encode(s, r), Encode(t, q))
  {
    hide Encode, Less, Number;
    PrefixNumber(s, r);
    PrefixNumber(t, q);
    KeyOrder(s, t);
    LessIsNumeric(Encode(s, r)[..8], Encode(t, q)[..8]);
    LessByPrefix(Encode(s, r), Encode(t, q), 8);
  }

  lemma KeyOrder(s: State, t: State)
    requires s.counter < SEQUENCES && t.counter < SEQUENCES && Ticks(s) < Ticks(t)
    ensures s.lastMs * 0x1_0000 + 0x7000 + s.counter < t.lastMs * 0x1_0000 + 0x7000 + t.counter
  {
    assert s.lastMs <= t.lastMs;
  }

  // ----- runs -----

  datatype Call = Call(clock: nat, random: Random)

  // The state after n calls.
  function After(s: State, calls: seq<Call>, n: nat): (r: State)
    requires n <= |calls| && s.counter < SEQUENCES
    ensures r.counter < SEQUENCES
  {
    if n == 0 then s else Advance(After(s, calls, n - 1), calls[n - 1].clock)
  }

  // The n-th UUID of a thread.
  function Produced(s: State, calls: seq<Call>, n: nat): seq<Byte>
    requires n < |calls| && s.counter < SEQUENCES
  {
    Encode(After(s, calls, n + 1), calls[n].random)
  }

  lemma {:induction false} TicksIncrease(s: State, calls: seq<Call>, m: nat, n: nat)
    requires m < n <= |calls| && s.counter < SEQUENCES
    ensures Ticks(After(s, calls, m)) < Ticks(After(s, calls, n))
    ensures After(s, calls, m).lastMs <= After(s, calls, n).lastMs
    decreases n
  {
    if m < n - 1 { TicksIncrease(s, calls, m, n - 1); }
  }

  // For every sequence of clock readings, as long as the logical timestamp is
  // below 2^48: the UUIDs are strictly increasing in byte order.
  lemma {:induction false} StrictlyIncreasing(calls: seq<Call>, i: nat, j: nat)
    requires i < j < |calls| && After(FIRST, calls, |calls|).lastMs < U48
    ensures Less(Produced(FIRST, calls, i), Produced(FIRST, calls, j))
  {
    hide Encode, Less;
    TicksIncrease(FIRST, calls, i + 1, j + 1);
    if j + 1 < |calls| { TicksIncrease(FIRST, calls, j + 1, |calls|); }
    TicksOrderUuids(After(FIRST, calls, i + 1), calls[i].random, After(FIRST, calls, j + 1), calls[j].random);
  }

  lemma {:induction false} AllVersion7(calls: seq<Call>, i: nat)
    requires i < |calls|
    ensures IsValidV7(Produced(FIRST, calls, i))
  {
    Version7(After(FIRST, calls, i + 1), calls[i].random);
  }

  // The bound is needed: the timestamp that reaches 2^48 is written as zero, and
  // the order is lost.
  lemma {:induction false} OrderEndsAt48Bits(r: Random, q: Random)
    ensures
      var last := State(U48 - 1, SEQUENCES - 1);
      && Advance(last, 0) == State(U48, 0)
      && Less(Encode(State(U48, 0), q), Encode(last, r))
  {
    hide Less;
    var last := State(U48 - 1, SEQUENCES - 1);
    Masked(State(U48, 0), q);
    TicksOrderUuids(State(0, 0), q, last, r);
  }

  // A thread gets there: one reading just below 2^48, then 4096 more calls.
  function Overrun(random: Random): seq<Call> {
    [Call(U48 - 1, random)] + seq(SEQUENCES, _ => Call(0, random))
  }

  lemma {:induction false} OverrunStates(random: Random, m: nat)
    requires m < SEQUENCES
    ensures After(FIRST, Overrun(random), m + 1) == State(U48 - 1, m)
  {
    if m == 0 {
      assert After(FIRST, Overrun(random), 0) == FIRST;
    } else {
      OverrunStates(random, m - 1);
    }
  }

  lemma OverrunLosesOrder(random: Random)
    ensures
      var calls := Overrun(random);
      Less(Produced(FIRST, calls, SEQUENCES), Produced(FIRST, calls, SEQUENCES - 1))
  {
    hide Less, Encode;
    OverrunStates(random, SEQUENCES - 1);
    OrderEndsAt48Bits(random, random);
    var calls := Overrun(random);
    assert After(FIRST, calls, SEQUENCES + 1) == Advance(After(FIRST, calls, SEQUENCES), 0);
  }

  // What is left of a state in the UUID.
  function Written(s: State): State { State(s.lastMs % U48, s.counter) }

  // Exactly when one UUID is below another whatever their random parts.
  lemma IncreasingIff(s: State, t: State)
    requires s.counter < SEQUENCES && t.counter < SEQUENCES
    ensures (forall r: Random, q: Random :: Less(Encode(s, r), Encode(t, q))) <==> Ticks(Written(s)) < Ticks(Written(t))
  {
    hide Less, Encode;
    if Ticks(Written(s)) < Ticks(Written(t)) {
      forall r: Random, q: Random ensures Less(Encode(s, r), Encode(t, q)) {
        Masked(s, r);
        Masked(t, q);
        TicksOrderUuids(Written(s), r, Written(t), q);
      }
    } else {
      Masked(s, 0);
      Masked(t, 0);
      if Ticks(Written(s)) == Ticks(Written(t)) {
        assert Written(s) == Written(t);
      } else {
        TicksOrderUuids(Written(t), 0, Written(s), 0);
      }
      LessAsymmetric(Encode(s, 0), Encode(t, 0));
    }
  }

  // The n-th state of a run as the UUID shows it.
  function Shown(calls: seq<Call>, n: nat): nat
    requires n <= |calls|
  {
    Ticks(Written(After(FIRST, calls, n)))
  }

  ghost predicate Rises(calls: seq<Call>) {
    forall k :: 0 < k < |calls| ==> Shown(calls, k) < Shown(calls, k + 1)
  }

  lemma {:induction false} RisesThroughout(calls: seq<Call>, m: nat, n: nat)
    requires Rises(calls) && 0 < m < n <= |calls|
    ensures Shown(calls, m) < Shown(calls, n)
    decreases n
  {
    hide After;
    assert Shown(calls, n - 1) < Shown(calls, n);
    if m < n - 1 { RisesThroughout(calls, m, n - 1); }
  }

  // The n-th UUID with any random word.
  function Nth(calls: seq<Call>, n: nat, random: Random): (u: seq<Byte>)
    requires n < |calls|
    ensures |u| == 16
  {
    Encode(After(FIRST, calls, n + 1), random)
  }

  // The UUIDs of a run increase, whatever the random words, if and only if
  // timestamp modulo 2^48 and counter rise with every call.
  lemma RunIncreasesIff(calls: seq<Call>)
    ensures (forall i: nat, j: nat, r: Random, q: Random :: i < j < |calls| ==> Less(Nth(calls, i, r), Nth(calls, j, q)))
       <==> Rises(calls)
  {
    hide Less, Encode, After;
    if Rises(calls) {
      forall i: nat, j: nat, r: Random, q: Random | i < j < |calls|
        ensures Less(Nth(calls, i, r), Nth(calls, j, q))
      {
        RisesThroughout(calls, i + 1, j + 1);
        IncreasingIff(After(FIRST, calls, i + 1), After(FIRST, calls, j + 1));
      }
    } else {
      var k :| 0 < k < |calls| && !(Shown(calls, k) < Shown(calls, k + 1));
      var i := k - 1;
      var s, t := After(FIRST, calls, i + 1), After(FIRST, calls, k + 1);
      IncreasingIff(s, t);
      var r: Random, q: Random :| !Less(Encode(s, r), Encode(t, q));
      assert !Less(Nth(calls, i, r), Nth(calls, k, q));
    }
  }

  // A jump over 2^48 need not break the order.
  lemma JumpRises(random: Random)
    ensures Rises([Call(5, random), Call(U48 + 10, random)])
  {
    var calls := [Call(5, random), Call(U48 + 10, random)];
    assert After(FIRST, calls, 0) == FIRST;
    assert After(FIRST, calls, 1) == State(5, 0);
    assert After(FIRST, calls, 2) == State(U48 + 10, 0);
  }

  // ----- the clock -----

  // Each call takes the first tick that is after the last one and not before the
  // clock: the counter restarts when the clock moves on, and a full counter
  // borrows the next millisecond.
  lemma AdvanceIsLeast(s: State, clock: nat)
    requires s.counter < SEQUENCES
    ensures
      var t := Advance(s, clock);
      && t.counter < SEQUENCES
      && Ticks(t) == (if Ticks(s) + 1 > clock * SEQUENCES then Ticks(s) + 1 else clock * SEQUENCES)
      && (clock > s.lastMs ==> t == State(clock, 0))
  {
  }

  // The last eight bytes are the variant and 62 bits of the random word.
  lemma RandomNumber(s: State, random: Random)
    requires s.counter < SEQUENCES
    ensures Number(Encode(s, random)[8..]) == 0x8000_0000_0000_0000 + random % 0x4000_0000_0000_0000
  {
    hide Shift, ByteAt;
    var u := Encode(s, random)[8..];
    assert forall k :: 1 <= k <= 7 ==> u[k] == Field(random, 6)[k - 1];
    assert u[0] == 0x80 + ByteAt(random, 7) % 64;
    TailNumber(u, random);
  }

  lemma TailNumber(u: seq<Byte>, random: Random)
    requires |u| == 8 && u[0] == 0x80 + ByteAt(random, 7) % 64
    requires forall k :: 1 <= k <= 7 ==> u[k] == ByteAt(random, 7 - k)
    ensures Number(u) == 0x8000_0000_0000_0000 + random % 0x4000_0000_0000_0000
  {
    var v := 0x8000_0000_0000_0000 + random % 0x4000_0000_0000_0000;
    assert Shift(v, 7) < 256 && Shift(v, 0) == v;
    LowBytes(random, v);
    hide Shift, ByteAt, Number;
    forall k | 0 <= k <= 7 ensures u[k] == ByteAt(v, 7 - k) {
      if k > 0 { assert u[k] == ByteAt(random, 7 - k); }
    }
    NumberOfBytes(u, v, 7, 8);
    assert u[..8] == u;
  }

  lemma LowBytes(random: Random, v: nat)
    requires v == 0x8000_0000_0000_0000 + random % 0x4000_0000_0000_0000
    ensures ByteAt(v, 7) == 0x80 + ByteAt(random, 7) % 64
    ensures forall k :: 0 <= k < 7 ==> ByteAt(v, k) == ByteAt(random, k)
  {
    TopByte(random, v);
    var j := random / 0x4000_0000_0000_0000 - 2;
    assert random == v + 0x4000_0000_0000_0000 * j;
    hide ByteAt;
    forall k | 0 <= k < 7 ensures ByteAt(v, k) == ByteAt(random, k) { SameByte(random, v, j, k); }
  }

  lemma TopByte(random: Random, v: nat)
    requires v == 0x8000_0000_0000_0000 + random % 0x4000_0000_0000_0000
    ensures ByteAt(v, 7) == 0x80 + ByteAt(random, 7) % 64
  {
  }

  // Numbers that agree modulo 2^62 agree in their low seven bytes.
  lemma SameByte(a: nat, b: nat, j: int, k: nat)
    requires a == b + 0x4000_0000_0000_0000 * j && k < 7
    ensures ByteAt(a, k) == ByteAt(b, k)
  {
    if k == 0 { SameDigit(a, b, j, 1, 0x40_0000_0000_0000); }
    else if k == 1 { SameDigit(a, b, j, 0x100, 0x4000_0000_0000); }
    else if k == 2 { SameDigit(a, b, j, 0x1_0000, 0x40_0000_0000); }
    else if k == 3 { SameDigit(a, b, j, 0x100_0000, 0x4000_0000); }
    else if k == 4 { SameDigit(a, b, j, 0x1_0000_0000, 0x40_0000); }
    else if k == 5 { SameDigit(a, b, j, 0x100_0000_0000, 0x4000); }
    else { SameDigit(a, b, j, 0x1_0000_0000_0000, 0x40); }
  }

  lemma SameDigit(a: nat, b: nat, j: int, p: nat, m: nat)
    requires p > 0 && a == b + (256 * p * m) * j
    ensures a / p % 256 == b / p % 256
  {
    var q, r := b / p, b % p;
    assert b == p * q + r && (256 * p * m) * j == p * (256 * (m * j));
    assert a == p * (q + 256 * (m * j)) + r;
    Quotient(a, p, q + 256 * (m * j), r);
    var x := m * j;
    assert (q + 256 * x) % 256 == q % 256;
  }

  lemma Quotient(a: nat, p: nat, q: int, r: nat)
    requires p > 0 && r < p && a == p * q + r
    ensures a / p == q
  {
    var x := a / p;
    assert p * (x - q) == r - a % p;
    Multiple(p, x - q);
  }

  lemma Multiple(p: nat, d: int)
    ensures d >= 1 ==> p * d >= p
    ensures d <= -1 ==> p * d <= 0 - p
  {
  }
}
