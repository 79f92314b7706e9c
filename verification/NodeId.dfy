// Model of src/Blocxxi/Crypto/hash.h (word storage, comparison, XOR) and of the
// distances in src/Blocxxi/P2P/kademlia/node.cpp and node.h.
module NodeId {
  import opened Bytes
  import opened LeadingZeros

  // ----- reference: XOR and shared prefixes bit by bit -----

  function Xor8(b: bv8, c: bv8): bv8 { b ^ c }

  function Xor32(a: bv32, b: bv32): bv32 { a ^ b }

  function XorOctets(s: seq<bv8>, t: seq<bv8>): (x: seq<bv8>)
    requires |s| == |t|
    ensures |x| == |s| && forall i :: 0 <= i < |s| ==> x[i] == Xor8(s[i], t[i])
  {
    if s == [] then [] else [Xor8(s[0], t[0])] + XorOctets(s[1..], t[1..])
  }

  function XorWords(a: seq<bv32>, b: seq<bv32>): (x: seq<bv32>)
    requires |a| == |b|
    ensures |x| == |a| && forall i :: 0 <= i < |a| ==> x[i] == Xor32(a[i], b[i])
  {
    seq(|a|, i requires 0 <= i < |a| => Xor32(a[i], b[i]))
  }

  // The first n bits agree and the next one, if any, does not.
  ghost predicate SharedPrefix(s: seq<bv8>, t: seq<bv8>, n: nat)
    requires |s| == |t|
  {
    && n <= 8 * |s|
    && (forall i :: 0 <= i < n ==> BitAt(s, i) == BitAt(t, i))
    && (n < 8 * |s| ==> BitAt(s, n) != BitAt(t, n))
  }

  lemma MaskXor(b: bv8, c: bv8, m: bv8)
    requires m == 0x80 || m == 0x40 || m == 0x20 || m == 0x10 || m == 0x08 || m == 0x04 || m == 0x02 || m == 0x01
    ensures (b ^ c) & m != 0 <==> (b & m != 0) != (c & m != 0)
  {
  }

  lemma XorBit(b: bv8, c: bv8, j: nat)
    requires j < 8
    ensures BitOf(Xor8(b, c), j) <==> BitOf(b, j) != BitOf(c, j)
  {
    MaskXor(b, c, Mask(j));
  }

  lemma XorBitAt(s: seq<bv8>, t: seq<bv8>, i: nat)
    requires |s| == |t| && i < 8 * |s|
    ensures BitAt(XorOctets(s, t), i) <==> BitAt(s, i) != BitAt(t, i)
  {
    hide BitOf, Xor8;
    XorBit(s[i / 8], t[i / 8], i % 8);
  }

  // The zero run of the XOR is the shared prefix.
  lemma XorRunIsPrefix(s: seq<bv8>, t: seq<bv8>, n: nat)
    requires |s| == |t|
    ensures ZeroRun(XorOctets(s, t), n) <==> SharedPrefix(s, t, n)
  {
    hide BitAt, Xor8;
    forall i: nat | i < 8 * |s|
      ensures BitAt(XorOctets(s, t), i) <==> BitAt(s, i) != BitAt(t, i)
    {
      XorBitAt(s, t, i);
    }
  }

  lemma FirstOctetOfXor(a: bv32, b: bv32)
    ensures Octets(Xor32(a, b))[0] == Xor8(Octets(a)[0], Octets(b)[0])
  {
  }

  lemma SecondOctetOfXor(a: bv32, b: bv32)
    ensures Octets(Xor32(a, b))[1] == Xor8(Octets(a)[1], Octets(b)[1])
  {
  }

  lemma ThirdOctetOfXor(a: bv32, b: bv32)
    ensures Octets(Xor32(a, b))[2] == Xor8(Octets(a)[2], Octets(b)[2])
  {
  }

  lemma FourthOctetOfXor(a: bv32, b: bv32)
    ensures Octets(Xor32(a, b))[3] == Xor8(Octets(a)[3], Octets(b)[3])
  {
  }

  lemma OctetsOfXor(a: bv32, b: bv32)
    ensures Octets(Xor32(a, b)) == XorOctets(Octets(a), Octets(b))
  {
    hide Octets, Xor8, Xor32;
    FirstOctetOfXor(a, b);
    SecondOctetOfXor(a, b);
    ThirdOctetOfXor(a, b);
    FourthOctetOfXor(a, b);
    assert Octets(Xor32(a, b)) == XorOctets(Octets(a), Octets(b));
  }

  // XOR of words is XOR of their octets in memory.
  lemma {:induction false} MemoryOfXor(a: seq<bv32>, b: seq<bv32>)
    requires |a| == |b|
    ensures Memory(XorWords(a, b)) == XorOctets(Memory(a), Memory(b))
  {
    hide Octets, Xor8, Xor32;
    if a != [] {
      MemoryOfXor(a[1..], b[1..]);
      OctetsOfXor(a[0], b[0]);
      assert XorWords(a, b)[1..] == XorWords(a[1..], b[1..]);
      XorOfConcat(Octets(a[0]), Memory(a[1..]), Octets(b[0]), Memory(b[1..]));
    }
  }

  lemma XorOfConcat(s: seq<bv8>, u: seq<bv8>, t: seq<bv8>, v: seq<bv8>)
    requires |s| == |t| && |u| == |v|
    ensures XorOctets(s + u, t + v) == XorOctets(s, t) + XorOctets(u, v)
  {
    hide Xor8;
  }

  // ----- word order -----

  lemma OctetsInjective(x: bv32, y: bv32)
    ensures Octets(x) == Octets(y) ==> x == y
  {
    Swapped(x);
    var s, t := Octets(x), Octets(y);
    if s == t {
      assert s[0] == t[0] && s[1] == t[1] && s[2] == t[2] && s[3] == t[3];
    }
  }

  lemma ValuesInjective(s: seq<bv8>, t: seq<bv8>)
    requires |s| == |t|
    ensures Values(s) == Values(t) ==> s == t
  {
    hide Value;
    if Values(s) == Values(t) {
      forall i | 0 <= i < |s| ensures s[i] == t[i] {
        assert Values(s)[i] == Values(t)[i];
        ValueOrder(s[i], t[i]);
      }
    }
  }

  // Words whose host values are not ordered either way are equal.
  lemma HostOrderTotal(x: bv32, y: bv32)
    ensures !Below(NetworkToHost(x), NetworkToHost(y)) && !Below(NetworkToHost(y), NetworkToHost(x)) ==> x == y
  {
    hide Octets, Below, NetworkToHost;
    SwapOrder(x, y);
    SwapOrder(y, x);
    LessTotal(Values(Octets(x)), Values(Octets(y)));
    ValuesInjective(Octets(x), Octets(y));
    OctetsInjective(x, y);
  }

  // The first word decides, and equal words pass the decision on.
  lemma WordsDecide(a: seq<bv32>, b: seq<bv32>)
    requires |a| == |b| > 0
    ensures Less(Values(Memory(a)), Values(Memory(b))) <==>
      || Below(NetworkToHost(a[0]), NetworkToHost(b[0]))
      || (a[0] == b[0] && Less(Values(Memory(a[1..])), Values(Memory(b[1..]))))
  {
    hide Octets, Less, Below, NetworkToHost, Value;
    var s, t := Octets(a[0]), Octets(b[0]);
    assert Values(Memory(a)) == Values(s) + Values(Memory(a[1..]));
    assert Values(Memory(b)) == Values(t) + Values(Memory(b[1..]));
    LessConcat(Values(s), Values(Memory(a[1..])), Values(t), Values(Memory(b[1..])));
    SwapOrder(a[0], b[0]);
    ValuesInjective(s, t);
    OctetsInjective(a[0], b[0]);
  }

  // ----- the hash -----

  class Hash {
    const storage: array<bv32>

    constructor (words: seq<bv32>)
      ensures fresh(storage) && storage[..] == words
    {
      storage := new bv32[|words|](i requires 0 <= i < |words| => words[i]);
      new;
      assert storage[..] == words;
    }

    ghost function Octets(): seq<bv8> reads this, storage { Memory(storage[..]) }

    ghost function AsNumber(): nat reads this, storage { Number(Values(Octets())) }

    // operator<: byte-swapped words, first difference decides.
    method LessThan(other: Hash) returns (less: bool)
      requires storage.Length == other.storage.Length
      ensures less <==> AsNumber() < other.AsNumber()
    {
      hide Less, Values, LeadingZeros.Octets, NetworkToHost, Below, Memory, Number;
      ghost var a, b := storage[..], other.storage[..];
      LessIsNumeric(Values(Memory(a)), Values(Memory(b)));
      var i := 0;
      while i < storage.Length
        invariant 0 <= i <= storage.Length
        invariant Less(Values(Memory(a)), Values(Memory(b))) <==> Less(Values(Memory(a[i..])), Values(Memory(b[i..])))
      {
        WordsDecide(a[i..], b[i..]);
        assert a[i..][1..] == a[i + 1..] && b[i..][1..] == b[i + 1..];
        var x, y := NetworkToHost(storage[i]), NetworkToHost(other.storage[i]);
        HostOrderTotal(storage[i], other.storage[i]);
        WordsDecide(b[i..], a[i..]);
        LessAsymmetric(Values(Memory(a[i..])), Values(Memory(b[i..])));
        if Below(x, y) { return true; }
        if Below(y, x) { return false; }
        i := i + 1;
      }
      assert a[i..] == b[i..];
      LessAsymmetric(Values(Memory(a[i..])), Values(Memory(b[i..])));
      return false;
    }

    // operator^=
    method XorAssign(other: Hash)
      requires storage.Length == other.storage.Length
      modifies storage
      ensures Octets() == XorOctets(old(Octets()), old(other.Octets()))
    {
      hide LeadingZeros.Octets, Memory, XorOctets, Xor32;
      ghost var a, b := storage[..], other.storage[..];
      var i := 0;
      while i < storage.Length
        invariant 0 <= i <= storage.Length
        invariant forall j :: 0 <= j < i ==> storage[j] == Xor32(a[j], b[j])
        invariant forall j :: i <= j < |a| ==> storage[j] == a[j] && other.storage[j] == b[j]
      {
        storage[i] := Xor32(storage[i], other.storage[i]);
        i := i + 1;
      }
      assert storage[..] == XorWords(a, b);
      MemoryOfXor(a, b);
    }

    method LeadingZeroBits() returns (n: nat)
      ensures ZeroRun(Octets(), n)
    {
      n := CountLeadingZeroBits(storage[..]);
    }
  }

  // ----- distances between nodes -----

  const LZCOUNT: seq<nat> :=
    [8, 7, 6, 6] + seq(4, _ => 5) + seq(8, _ => 4) + seq(16, _ => 3)
    + seq(32, _ => 2) + seq(64, _ => 1) + seq(128, _ => 0)

  lemma TableZeros(b: bv8)
    ensures |LZCOUNT| == 256 && LZCOUNT[Value(b)] == ByteZeros(b)
  {
    ByteZerosByValue(b);
  }

  lemma ByteZerosByValue(b: bv8)
    ensures
      var v := Value(b);
      ByteZeros(b) ==
        if v >= 128 then 0 else if v >= 64 then 1 else if v >= 32 then 2 else if v >= 16 then 3
        else if v >= 8 then 4 else if v >= 4 then 5 else if v >= 2 then 6 else if v >= 1 then 7 else 8
  {
  }

  // Octet by octet, with the table: the number of leading bits two ids share.
  method SharedPrefixSize(a: seq<bv8>, b: seq<bv8>) returns (lz: nat)
    requires |a| == |b|
    ensures SharedPrefix(a, b, lz)
  {
    hide BitAt, Xor8, ByteZeros, LZCOUNT;
    ghost var x := XorOctets(a, b);
    CountedRun(x);
    XorRunIsPrefix(a, b, ZeroBits(x));
    lz := 0;
    var i := 0;
    while i < |a|
      invariant 0 <= i <= |a| && lz == 8 * i
      invariant ZeroBits(x) == 8 * i + ZeroBits(x[i..])
    {
      assert x[i..][1..] == x[i + 1..];
      var d := Xor8(a[i], b[i]);
      if d == 0 {
        lz := lz + 8;
      } else {
        TableZeros(d);
        lz := lz + LZCOUNT[Value(d)];
        break;
      }
      i := i + 1;
    }
  }

  // The XOR of two ids read as a number.
  function Distance(s: seq<bv8>, t: seq<bv8>): nat
    requires |s| == |t|
  {
    Number(Values(XorOctets(s, t)))
  }

  const BITS: nat := 160
  const SIZE_WRAP: nat := 0x1_0000_0000_0000_0000

  method LogDistanceTo(id: Hash, hash: Hash) returns (n: nat)
    requires id.storage.Length == hash.storage.Length == 5
    ensures id.Octets() != hash.Octets() ==>
      n < BITS && Pow2(n) <= Distance(id.Octets(), hash.Octets()) < Pow2(n + 1)
    ensures id.Octets() != hash.Octets() ==> SharedPrefix(id.Octets(), hash.Octets(), BITS - 1 - n)
    ensures id.Octets() == hash.Octets() ==> n == SIZE_WRAP - 1
  {
    hide BitAt, Xor8, ByteZeros, Pow2, Number, Memory, XorOctets;
    var dist := new Hash(id.storage[..]);
    dist.XorAssign(hash);
    var lzc := dist.LeadingZeroBits();
    n := (BITS - 1 - lzc) % SIZE_WRAP;
    ghost var s, t := id.Octets(), hash.Octets();
    ZeroBitsIsRun(dist.Octets(), lzc);
    ZeroBitsIsLog(dist.Octets());
    XorRunIsPrefix(s, t, lzc);
    DistanceZeroIff(s, t);
  }

  // ----- the metric -----

  lemma Xor8Zero(b: bv8, c: bv8)
    ensures Value(Xor8(b, c)) == 0 <==> b == c
  {
  }

  lemma Xor8Cancels(b: bv8, c: bv8, d: bv8)
    ensures Xor8(b, c) == Xor8(b, d) ==> c == d
  {
  }

  lemma Xor8Joins(b: bv8, c: bv8, d: bv8)
    ensures Xor8(Xor8(b, c), Xor8(c, d)) == Xor8(b, d)
  {
  }

  lemma Xor8Subadditive(b: bv8, c: bv8)
    ensures Value(Xor8(b, c)) <= Value(b) + Value(c)
  {
  }

  // Only an id itself is at distance zero.
  lemma DistanceZeroIff(s: seq<bv8>, t: seq<bv8>)
    requires |s| == |t|
    ensures Distance(s, t) == 0 <==> s == t
  {
    hide Xor8, Value, Number;
    var v := Values(XorOctets(s, t));
    NumberZeroIff(v);
    forall i | 0 <= i < |s| ensures v[i] == 0 <==> s[i] == t[i] {
      Xor8Zero(s[i], t[i]);
    }
  }

  lemma {:induction false} NumberZeroIff(v: seq<Byte>)
    ensures Number(v) == 0 <==> forall i :: 0 <= i < |v| ==> v[i] == 0
  {
    if v != [] {
      var n := |v| - 1;
      NumberZeroIff(v[..n]);
      assert forall i :: 0 <= i < n ==> v[i] == v[..n][i];
    }
  }

  // From one id, each distance reaches at most one other id.
  lemma DistanceDetermines(s: seq<bv8>, t: seq<bv8>, u: seq<bv8>)
    requires |s| == |t| == |u| && Distance(s, t) == Distance(s, u)
    ensures t == u
  {
    hide Xor8, Value, Number;
    var x, y := XorOctets(s, t), XorOctets(s, u);
    LessIsNumeric(Values(x), Values(y));
    LessIsNumeric(Values(y), Values(x));
    LessTotal(Values(x), Values(y));
    ValuesInjective(x, y);
    forall i | 0 <= i < |t| ensures t[i] == u[i] {
      assert x[i] == y[i];
      Xor8Cancels(s[i], t[i], u[i]);
    }
  }

  lemma DistanceSymmetric(s: seq<bv8>, t: seq<bv8>)
    requires |s| == |t|
    ensures Distance(s, t) == Distance(t, s)
  {
    hide Value, Number;
    assert forall i :: 0 <= i < |s| ==> Xor8(s[i], t[i]) == Xor8(t[i], s[i]);
    assert XorOctets(s, t) == XorOctets(t, s);
  }

  lemma {:induction false} XorSubadditive(x: seq<bv8>, y: seq<bv8>)
    requires |x| == |y|
    ensures Number(Values(XorOctets(x, y))) <= Number(Values(x)) + Number(Values(y))
  {
    hide Xor8, Value;
    if x != [] {
      var z, p := XorOctets(x, y), Pow256(|x| - 1);
      XorSubadditive(x[1..], y[1..]);
      NumberHead(Values(x));
      NumberHead(Values(y));
      NumberHead(Values(z));
      hide Number, Pow256;
      assert Values(x)[1..] == Values(x[1..]) && Values(y)[1..] == Values(y[1..]);
      assert Values(z)[1..] == Values(XorOctets(x[1..], y[1..]));
      Xor8Subadditive(x[0], y[0]);
      Weighted(Value(z[0]), Value(x[0]), Value(y[0]), p);
    }
  }

  lemma Weighted(c: nat, a: nat, b: nat, p: nat)
    requires c <= a + b
    ensures c * p <= a * p + b * p
  {
    if c < a + b { Gap(c, a + b, p); }
    assert (a + b) * p == a * p + b * p;
  }

  // The triangle inequality.
  lemma DistanceTriangle(s: seq<bv8>, t: seq<bv8>, u: seq<bv8>)
    requires |s| == |t| == |u|
    ensures Distance(s, u) <= Distance(s, t) + Distance(t, u)
  {
    hide Xor8, Value, Number;
    var x, y := XorOctets(s, t), XorOctets(t, u);
    forall i | 0 <= i < |s| ensures XorOctets(x, y)[i] == XorOctets(s, u)[i] {
      Xor8Joins(s[i], t[i], u[i]);
    }
    assert XorOctets(x, y) == XorOctets(s, u);
    XorSubadditive(x, y);
  }

  // Prefix lengths are an ultrametric: two ids share at least what both share
  // with a third, and exactly the shorter of the two when those differ.
  lemma SharedPrefixUltrametric(s: seq<bv8>, t: seq<bv8>, u: seq<bv8>, m: nat, n: nat, k: nat)
    requires |s| == |t| == |u|
    requires SharedPrefix(s, t, m) && SharedPrefix(t, u, n) && SharedPrefix(s, u, k)
    ensures k >= m || k >= n
    ensures m != n ==> k == if m < n then m else n
  {
    hide BitAt;
  }
}
