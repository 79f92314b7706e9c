// Model of src/Blocxxi/Crypto/hash.cpp: byte order and leading-zero counts of
// 32-bit words stored in network order on a little-endian host.
module LeadingZeros {
  import opened Bytes

  function NetworkToHost(n: bv32): bv32 {
    ((n & 0xFF) << 24) | ((n & 0xFF00) << 8) | ((n & 0xFF_0000) >> 8) | ((n & 0xFF00_0000) >> 24)
  }

  // The four octets of a storage word, in memory order.
  function Octets(w: bv32): (s: seq<bv8>)
    ensures |s| == 4
  {
    [(w & 0xFF) as bv8, ((w >> 8) & 0xFF) as bv8, ((w >> 16) & 0xFF) as bv8, (w >> 24) as bv8]
  }

  function Memory(words: seq<bv32>): (s: seq<bv8>)
    ensures |s| == 4 * |words|
  {
    if words == [] then [] else Octets(words[0]) + Memory(words[1..])
  }

  function Value(b: bv8): Byte { b as int }

  function Values(s: seq<bv8>): (v: seq<Byte>)
    ensures |v| == |s| && forall i :: 0 <= i < |s| ==> v[i] == Value(s[i])
  {
    if s == [] then [] else [Value(s[0])] + Values(s[1..])
  }

  // ----- bits, most significant first -----

  function Mask(j: nat): bv8
    requires j < 8
  {
    if j == 0 then 0x80 else if j == 1 then 0x40 else if j == 2 then 0x20 else if j == 3 then 0x10
    else if j == 4 then 0x08 else if j == 5 then 0x04 else if j == 6 then 0x02 else 0x01
  }

  predicate BitOf(b: bv8, j: nat) requires j < 8 { b & Mask(j) != 0 }

  predicate BitAt(s: seq<bv8>, i: nat)
    requires i < 8 * |s|
  {
    BitOf(s[i / 8], i % 8)
  }

  // The first n bits are zero and the next one, if any, is set.
  ghost predicate ZeroRun(s: seq<bv8>, n: nat) {
    && n <= 8 * |s|
    && (forall i :: 0 <= i < n ==> !BitAt(s, i))
    && (n < 8 * |s| ==> BitAt(s, n))
  }

  function ByteZeros(b: bv8): (n: nat)
    ensures n <= 8
  {
    if b >= 0x80 then 0 else if b >= 0x40 then 1 else if b >= 0x20 then 2 else if b >= 0x10 then 3
    else if b >= 0x08 then 4 else if b >= 0x04 then 5 else if b >= 0x02 then 6 else if b >= 0x01 then 7
    else 8
  }

  // Octet by octet.
  function ZeroBits(s: seq<bv8>): (n: nat)
    ensures n <= 8 * |s|
  {
    if s == [] then 0
    else if s[0] == 0 then 8 + ZeroBits(s[1..])
    else
      assert ByteZeros(s[0]) <= 8;
      ByteZeros(s[0])
  }

  lemma ByteZerosIsRun(b: bv8, j: nat)
    requires j < 8
    ensures j < ByteZeros(b) ==> !BitOf(b, j)
    ensures j == ByteZeros(b) ==> BitOf(b, j)
  {
  }

  // The octet count is the length of the zero run, which is unique.
  lemma {:induction false} ZeroBitsIsRun(s: seq<bv8>, n: nat)
    ensures ZeroRun(s, n) <==> n == ZeroBits(s)
  {
    hide BitOf, ByteZeros;
    CountedRun(s);
  }

  lemma {:induction false} CountedRun(s: seq<bv8>)
    ensures ZeroRun(s, ZeroBits(s))
  {
    if s != [] {
      var z := ZeroBits(s);
      if s[0] == 0 {
        CountedRun(s[1..]);
        assert ByteZeros(s[0]) == 8;
      } else {
        assert ByteZeros(s[0]) < 8;
      }
      hide BitOf, ByteZeros;
      forall i | 0 <= i <= z && i < 8 * |s|
        ensures BitAt(s, i) <==> i == z
      {
        if i < 8 {
          ByteZerosIsRun(s[0], i);
        } else {
          assert BitAt(s, i) == BitAt(s[1..], i - 8);
        }
      }
    }
  }

  // ----- the number -----

  function Pow2(n: nat): (p: nat)
    ensures p > 0
  {
    if n == 0 then 1 else 2 * Pow2(n - 1)
  }

  lemma {:induction false} Pow2Octets(t: nat, m: nat)
    ensures Pow2(8 * m + t) == Pow2(t) * Pow256(m)
    decreases m
  {
    if m > 0 {
      Pow2Octets(t, m - 1);
      var n := 8 * (m - 1) + t;
      assert Pow2(n + 2) == 4 * Pow2(n) && Pow2(n + 4) == 4 * Pow2(n + 2) && Pow2(n + 6) == 4 * Pow2(n + 4);
      assert Pow2(n + 8) == 256 * Pow2(n);
      assert Pow2(t) * Pow256(m) == Pow2(t) * (256 * Pow256(m - 1)) == 256 * (Pow2(t) * Pow256(m - 1));
    }
  }

  lemma ByteBounds(b: bv8)
    requires b != 0
    ensures ByteZeros(b) < 8 && Pow2(7 - ByteZeros(b)) <= Value(b) < Pow2(8 - ByteZeros(b))
  {
    assert Pow2(2) == 4 && Pow2(3) == 8 && Pow2(4) == 16 && Pow2(5) == 32;
    assert Pow2(6) == 64 && Pow2(7) == 128 && Pow2(8) == 256;
  }

  // Where the leading one stands is the binary logarithm of the number.
  lemma {:induction false} ZeroBitsIsLog(s: seq<bv8>)
    ensures Number(Values(s)) == 0 <==> ZeroBits(s) == 8 * |s|
    ensures ZeroBits(s) < 8 * |s| ==>
      Pow2(8 * |s| - 1 - ZeroBits(s)) <= Number(Values(s)) < Pow2(8 * |s| - ZeroBits(s))
  {
    hide Number, Pow2, Value, ByteZeros;
    if s == [] {
      EmptyNumber();
    } else {
      NumberHead(Values(s));
      assert Values(s)[1..] == Values(s[1..]);
      if s[0] == 0 {
        ZeroValue();
        ZeroBitsIsLog(s[1..]);
      } else {
        HeadIsLog(s[0], |s| - 1, Number(Values(s[1..])));
      }
    }
  }

  lemma EmptyNumber() ensures Number(Values([])) == 0 {
  }

  lemma ZeroValue() ensures Value(0) == 0 {
  }

  // A nonzero leading octet with m octets below it.
  lemma HeadIsLog(b: bv8, m: nat, rest: nat)
    requires b != 0 && rest < Pow256(m)
    ensures ByteZeros(b) < 8
    ensures Pow2(8 * m + 7 - ByteZeros(b)) <= Value(b) * Pow256(m) + rest < Pow2(8 * m + 8 - ByteZeros(b))
  {
    hide Pow2, Value, ByteZeros, Pow256;
    ByteBounds(b);
    var t := 7 - ByteZeros(b);
    Pow2Octets(t, m);
    Pow2Octets(t + 1, m);
    Scaled(Pow2(t), Value(b), Pow2(t + 1), Pow256(m), rest);
  }

  lemma Scaled(lo: nat, high: nat, hi: nat, p: nat, rest: nat)
    requires lo <= high < hi && rest < p
    ensures lo * p <= high * p + rest < hi * p
  {
    if lo < high { Gap(lo, high, p); }
    Gap(high, hi, p);
  }

  // ----- de Bruijn -----

  const POSITION: seq<nat> :=
    [0, 9, 1, 10, 13, 21, 2, 29, 11, 14, 16, 18, 22, 25, 3, 30,
     8, 12, 20, 28, 15, 17, 24, 7, 19, 27, 23, 6, 26, 5, 4, 31]

  function Smear(w: bv32): bv32 {
    var v := w | (w >> 1);
    var v := v | (v >> 2);
    var v := v | (v >> 4);
    var v := v | (v >> 8);
    v | (v >> 16)
  }

  function Hashed(v: bv32): (i: bv32)
    ensures i < 32
  {
    (v * 0x07C4ACDD) >> 27
  }

  function Position(i: bv32): nat requires i < 32 { POSITION[i as nat] }

  function HighestBit(v: bv32): nat { Position(Hashed(Smear(v))) }

  lemma SmearFills(v: bv32, k: bv32)
    requires k < 32 && v >> k == 1
    ensures Smear(v) == (2 << k) - 1
  {
    hide Smear;
    if k < 16 { SmearFillsLow(v, k); } else { SmearFillsHigh(v, k); }
  }

  lemma SmearFillsLow(v: bv32, k: bv32)
    requires k < 16 && v >> k == 1
    ensures Smear(v) == (2 << k) - 1
  {
  }

  lemma SmearFillsHigh(v: bv32, k: bv32)
    requires 16 <= k < 32 && v >> k == 1
    ensures Smear(v) == (2 << k) - 1
  {
  }

  // The table inverts the multiplication for every low mask.
  lemma TableInverts(k: bv32)
    requires k < 32
    ensures Position(Hashed((2 << k) - 1)) == k as nat
  {
    if k < 16 { LowTable(k); } else { HighTable(k); }
  }

  lemma LowTable(k: bv32)
    requires k < 16
    ensures Position(Hashed((2 << k) - 1)) == k as nat
  {
  }

  lemma HighTable(k: bv32)
    requires 16 <= k < 32
    ensures Position(Hashed((2 << k) - 1)) == k as nat
  {
  }

  lemma HighestBitAt(v: bv32, k: bv32)
    requires k < 32 && v >> k == 1
    ensures HighestBit(v) == k as nat
  {
    hide Smear, Hashed, Position;
    SmearFills(v, k);
    TableInverts(k);
  }

  // ----- octets of the host value -----

  function First(h: bv32): bv8 { (h >> 24) as bv8 }

  function Rest(h: bv32): bv32 { h << 8 }

  lemma Swapped(x: bv32)
    ensures
      var h := NetworkToHost(x);
      && Octets(x) == [First(h), First(Rest(h)), First(Rest(Rest(h))), First(Rest(Rest(Rest(h))))]
      && Rest(Rest(Rest(Rest(h)))) == 0
  {
  }

  predicate Below(x: bv32, y: bv32) { x < y }

  lemma ValueOrder(b: bv8, c: bv8)
    ensures b < c <==> Value(b) < Value(c)
    ensures Value(b) == Value(c) ==> b == c
  {
  }

  lemma TopOctet(x: bv32, y: bv32, fx: bv8, fy: bv8, rx: bv32, ry: bv32)
    requires fx == (x >> 24) as bv8 && fy == (y >> 24) as bv8 && rx == x << 8 && ry == y << 8
    ensures Below(x, y) <==> fx < fy || (fx == fy && Below(rx, ry))
  {
  }

  lemma FirstDecides(x: bv32, y: bv32)
    ensures Below(x, y) <==>
      Value(First(x)) < Value(First(y)) || (Value(First(x)) == Value(First(y)) && Below(Rest(x), Rest(y)))
  {
    hide Below, Value;
    TopOctet(x, y, First(x), First(y), Rest(x), Rest(y));
    hide First, Rest;
    ValueOrder(First(x), First(y));
    ValueOrder(First(y), First(x));
  }

  // The order of the host values, octet by octet.
  lemma FourDecide(h: bv32, g: bv32, a: seq<Byte>, b: seq<Byte>)
    requires |a| == |b| == 4 && Rest(Rest(Rest(Rest(h)))) == Rest(Rest(Rest(Rest(g)))) == 0
    requires a[0] == Value(First(h)) && b[0] == Value(First(g))
    requires a[1] == Value(First(Rest(h))) && b[1] == Value(First(Rest(g)))
    requires a[2] == Value(First(Rest(Rest(h)))) && b[2] == Value(First(Rest(Rest(g))))
    requires a[3] == Value(First(Rest(Rest(Rest(h))))) && b[3] == Value(First(Rest(Rest(Rest(g)))))
    ensures Below(h, g) <==> Less(a, b)
  {
    assert !Below(0, 0);
    hide Below, Value, First, Rest, Less;
    FirstDecides(h, g);
    FirstDecides(Rest(h), Rest(g));
    FirstDecides(Rest(Rest(h)), Rest(Rest(g)));
    FirstDecides(Rest(Rest(Rest(h))), Rest(Rest(Rest(g))));
    LessOfFour(a, b);
  }

  // Byte-swapped words compare as their octets in memory.
  lemma SwapOrder(x: bv32, y: bv32)
    ensures Below(NetworkToHost(x), NetworkToHost(y)) <==> Less(Values(Octets(x)), Values(Octets(y)))
  {
    hide NetworkToHost, Octets, Below, Value, First, Rest, Less;
    Swapped(x);
    Swapped(y);
    FourDecide(NetworkToHost(x), NetworkToHost(y), Values(Octets(x)), Values(Octets(y)));
  }

  lemma LessOfFour(a: seq<Byte>, b: seq<Byte>)
    requires |a| == |b| == 4
    ensures Less(a, b) <==>
      || a[0] < b[0] || (a[0] == b[0] && (a[1] < b[1] || (a[1] == b[1] && (a[2] < b[2] || (a[2] == b[2] && a[3] < b[3])))))
  {
    assert Less(a[3..], b[3..]) <==> a[3] < b[3];
    assert a[2..][1..] == a[3..] && b[2..][1..] == b[3..];
    assert Less(a[2..], b[2..]) <==> a[2] < b[2] || (a[2] == b[2] && a[3] < b[3]);
    assert a[1..][1..] == a[2..] && b[1..][1..] == b[2..];
  }

  // The highest set bit of an octet.
  function TopBit(b: bv8): bv32 {
    if b >= 0x80 then 7 else if b >= 0x40 then 6 else if b >= 0x20 then 5 else if b >= 0x10 then 4
    else if b >= 0x08 then 3 else if b >= 0x04 then 2 else if b >= 0x02 then 1 else 0
  }

  lemma TopBitZeros(b: bv8, base: bv32, n: nat)
    requires b != 0 && ((base == 0 && n == 0) || (base == 8 && n == 8) || (base == 16 && n == 16) || (base == 24 && n == 24))
    ensures base + TopBit(b) < 32 && (base + TopBit(b)) as nat + ByteZeros(b) == n + 7
  {
  }

  lemma LeadingOctet(h: bv32)
    ensures First(h) != 0 ==> h >> (24 + TopBit(First(h))) == 1
    ensures First(h) == 0 && First(Rest(h)) != 0 ==> h >> (16 + TopBit(First(Rest(h)))) == 1
    ensures First(h) == 0 && First(Rest(h)) == 0 && First(Rest(Rest(h))) != 0 ==>
      h >> (8 + TopBit(First(Rest(Rest(h))))) == 1
    ensures First(h) == 0 && First(Rest(h)) == 0 && First(Rest(Rest(h))) == 0 && h != 0 ==>
      First(Rest(Rest(Rest(h)))) != 0 && h >> TopBit(First(Rest(Rest(Rest(h))))) == 1
  {
  }

  lemma ZeroBitsOfFour(s: seq<bv8>)
    requires |s| == 4
    ensures ZeroBits(s) ==
      if s[0] != 0 then ByteZeros(s[0]) else if s[1] != 0 then 8 + ByteZeros(s[1])
      else if s[2] != 0 then 16 + ByteZeros(s[2]) else if s[3] != 0 then 24 + ByteZeros(s[3]) else 32
  {
    hide ByteZeros;
    assert ZeroBits(s[3..]) == if s[3] != 0 then ByteZeros(s[3]) else 8;
    assert s[2..][1..] == s[3..] && s[1..][1..] == s[2..];
    assert ZeroBits(s[2..]) == if s[2] != 0 then ByteZeros(s[2]) else 8 + ZeroBits(s[3..]);
  }

  // The de Bruijn count of a nonzero word is its octet count.
  lemma WordZeros(w: bv32)
    requires w != 0
    ensures HighestBit(NetworkToHost(w)) + ZeroBits(Octets(w)) == 31
  {
    var h, s := NetworkToHost(w), Octets(w);
    assert h != 0;
    Swapped(w);
    hide NetworkToHost, Octets, HighestBit, TopBit, ByteZeros;
    LeadingOctet(h);
    hide First, Rest;
    ZeroBitsOfFour(s);
    if s[0] != 0 {
      TopBitZeros(s[0], 24, 24);
      HighestBitAt(h, 24 + TopBit(s[0]));
    } else if s[1] != 0 {
      TopBitZeros(s[1], 16, 16);
      HighestBitAt(h, 16 + TopBit(s[1]));
    } else if s[2] != 0 {
      TopBitZeros(s[2], 8, 8);
      HighestBitAt(h, 8 + TopBit(s[2]));
    } else {
      TopBitZeros(s[3], 0, 0);
      HighestBitAt(h, TopBit(s[3]));
    }
  }

  // ----- words -----

  lemma {:induction false} ZeroBitsConcat(s: seq<bv8>, t: seq<bv8>)
    ensures ZeroBits(s + t) == if ZeroBits(s) == 8 * |s| then 8 * |s| + ZeroBits(t) else ZeroBits(s)
  {
    hide ByteZeros;
    if s == [] {
      assert s + t == t;
    } else {
      assert (s + t)[1..] == s[1..] + t;
      ZeroBitsConcat(s[1..], t);
      ByteZerosZero(s[0]);
    }
  }

  lemma ByteZerosZero(b: bv8)
    ensures ByteZeros(b) == 8 <==> b == 0
  {
  }

  lemma ZeroWord(w: bv32)
    ensures ZeroBits(Octets(w)) == 32 <==> w == 0
  {
    if w == 0 {
      var s := Octets(w);
      assert s == [0, 0, 0, 0];
      ZeroBitsOfFour(s);
    } else {
      WordZeros(w);
    }
  }

  // The loop of the software form.
  method CountLeadingZeroBits(buf: seq<bv32>) returns (n: nat)
    ensures n == ZeroBits(Memory(buf)) && ZeroRun(Memory(buf), n)
  {
    hide BitAt, Octets, ByteZeros, HighestBit, NetworkToHost;
    CountedRun(Memory(buf));
    var i := 0;
    while i < |buf|
      invariant 0 <= i <= |buf|
      invariant ZeroBits(Memory(buf)) == 32 * i + ZeroBits(Memory(buf[i..]))
    {
      ZeroBitsConcat(Octets(buf[i]), Memory(buf[i + 1..]));
      assert buf[i..][1..] == buf[i + 1..];
      ZeroWord(buf[i]);
      if buf[i] != 0 {
        WordZeros(buf[i]);
        return i * 32 + 31 - HighestBit(NetworkToHost(buf[i]));
      }
      i := i + 1;
    }
    return |buf| * 32;
  }
}
