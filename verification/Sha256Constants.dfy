// Where the constants of src/Nova/Base/Sha256.cpp come from: the first 32 bits of
// the fractional parts of the cube roots of the first 64 primes, and of the square
// roots of the first eight (sections 4.2.2 and 5.3.3 of FIPS 180-4).
module Sha256Constants {
  import opened Bytes
  import opened Compression

  // ----- the primes -----

  predicate Divides(d: nat, m: nat) requires d > 0 { m % d == 0 }

  ghost predicate IsPrime(m: nat) {
    m >= 2 && forall d: nat :: 2 <= d < m ==> !Divides(d, m)
  }

  // q is the first prime after p.
  ghost predicate Successor(p: nat, q: nat) {
    p < q && IsPrime(q) && forall m: nat :: p < m < q ==> !IsPrime(m)
  }

  const PRIMES: seq<nat> :=
    [2, 3, 5, 7, 11, 13, 17, 19]
    + [23, 29, 31, 37, 41, 43, 47, 53]
    + [59, 61, 67, 71, 73, 79, 83, 89]
    + [97, 101, 103, 107, 109, 113, 127, 131]
    + [137, 139, 149, 151, 157, 163, 167, 173]
    + [179, 181, 191, 193, 197, 199, 211, 223]
    + [227, 229, 233, 239, 241, 251, 257, 263]
    + [269, 271, 277, 281, 283, 293, 307, 311]

  // Below 18 * 18 it is enough to try the divisors below 18.
  predicate Tried(m: nat) {
    && m % 2 != 0 && m % 3 != 0 && m % 5 != 0 && m % 7 != 0 && m % 11 != 0 && m % 13 != 0 && m % 17 != 0
  }

  lemma Factor(m: nat, p: nat, k: nat)
    requires p > 0 && k > 0
    ensures m % (p * k) == 0 ==> m % p == 0
  {
    var d := p * k;
    var q := m / d;
    if m % d == 0 {
      assert m == d * q == p * (k * q);
      Multiple(p, k * q);
    }
  }

  lemma Prime(m: nat, d: nat)
    requires Tried(m) && (d == 2 || d == 3 || d == 5 || d == 7 || d == 11 || d == 13 || d == 17)
    ensures m % d != 0
  {
  }

  lemma NoSmallDivisor(m: nat, d: nat)
    requires 2 <= d < 18 && Tried(m)
    ensures m % d != 0
  {
    if d == 4 { Factor(m, 2, 2); } else if d == 6 { Factor(m, 2, 3); } else if d == 8 { Factor(m, 2, 4); } else if d == 9 { Factor(m, 3, 3); }
    else if d == 10 { Factor(m, 2, 5); } else if d == 12 { Factor(m, 2, 6); } else if d == 14 { Factor(m, 2, 7); } else if d == 15 { Factor(m, 3, 5); }
    else if d == 16 { Factor(m, 2, 8); } else { Prime(m, d); }
  }

  lemma Steps(p: nat, k: nat, q: nat)
    ensures k > q ==> p * k >= p * q + p
  {
    if k > q { Gap(q, k, p); }
  }

  lemma Multiple(p: nat, k: nat)
    requires p > 0
    ensures (p * k) % p == 0
  {
    var q := (p * k) / p;
    Steps(p, k, q);
    Steps(p, q, k);
  }

  lemma Product(d: nat, e: nat)
    ensures d >= 18 && e >= 18 ==> d * e >= 324
    ensures e < 2 ==> d * e <= d
  {
    if d >= 18 && e >= 18 { assert d * e == (d - 18) * e + 18 * e; }
  }

  // A divisor that is not small has a small co-divisor.
  lemma CoDivisor(m: nat, d: nat)
    requires 18 <= d < m < 324
    ensures m % d == 0 ==> 2 <= m / d < 18 && m % (m / d) == 0
  {
    var e := m / d;
    if m % d == 0 {
      assert m == d * e;
      Product(d, e);
      Multiple(e, d);
    }
  }

  lemma TriedIsPrime(m: nat)
    requires 18 <= m < 324 && Tried(m)
    ensures IsPrime(m)
  {
    hide Tried;
    forall d: nat | 2 <= d < m ensures !Divides(d, m) {
      if d < 18 {
        NoSmallDivisor(m, d);
      } else {
        CoDivisor(m, d);
        if 2 <= m / d < 18 { NoSmallDivisor(m, m / d); }
      }
    }
  }

  lemma NotTried(m: nat)
    requires m >= 18 && !Tried(m)
    ensures !IsPrime(m)
  {
    var p := if m % 2 == 0 then 2 else if m % 3 == 0 then 3 else if m % 5 == 0 then 5 else if m % 7 == 0 then 7
             else if m % 11 == 0 then 11 else if m % 13 == 0 then 13 else 17;
    assert Divides(p, m);
  }

  lemma Follows(p: nat, q: nat)
    requires 17 <= p < q < 324 && Tried(q) && forall m: nat :: p < m < q ==> !Tried(m)
    ensures Successor(p, q)
  {
    TriedIsPrime(q);
    forall m: nat | p < m < q ensures !IsPrime(m) { NotTried(m); }
  }

  // ----- in order -----

  lemma Primes0(t: nat)
    requires 0 <= t < 4
    ensures |PRIMES| == 64 && Successor(PRIMES[t], PRIMES[t + 1])
  {
    if t == 0 { FollowsSmall(2, 3); }
    else if t == 1 { FollowsSmall(3, 5); }
    else if t == 2 { FollowsSmall(5, 7); }
    else { FollowsSmall(7, 11); }
  }

  lemma Primes1(t: nat)
    requires 4 <= t < 8
    ensures |PRIMES| == 64 && Successor(PRIMES[t], PRIMES[t + 1])
  {
    if t == 4 { FollowsSmall(11, 13); }
    else if t == 5 { FollowsSmall(13, 17); }
    else if t == 6 { Follows(17, 19); }
    else { Follows(19, 23); }
  }

  lemma Primes2(t: nat)
    requires 8 <= t < 12
    ensures |PRIMES| == 64 && Successor(PRIMES[t], PRIMES[t + 1])
  {
    if t == 8 { Follows(23, 29); }
    else if t == 9 { Follows(29, 31); }
    else if t == 10 { Follows(31, 37); }
    else { Follows(37, 41); }
  }

  lemma Primes3(t: nat)
    requires 12 <= t < 16
    ensures |PRIMES| == 64 && Successor(PRIMES[t], PRIMES[t + 1])
  {
    if t == 12 { Follows(41, 43); }
    else if t == 13 { Follows(43, 47); }
    else if t == 14 { Follows(47, 53); }
    else { Follows(53, 59); }
  }

  lemma Primes4(t: nat)
    requires 16 <= t < 20
    ensures |PRIMES| == 64 && Successor(PRIMES[t], PRIMES[t + 1])
  {
    if t == 16 { Follows(59, 61); }
    else if t == 17 { Follows(61, 67); }
    else if t == 18 { Follows(67, 71); }
    else { Follows(71, 73); }
  }

  lemma Primes5(t: nat)
    requires 20 <= t < 24
    ensures |PRIMES| == 64 && Successor(PRIMES[t], PRIMES[t + 1])
  {
    if t == 20 { Follows(73, 79); }
    else if t == 21 { Follows(79, 83); }
    else if t == 22 { Follows(83, 89); }
    else { assert !Tried(90) && !Tried(91) && !Tried(92) && !Tried(93) && !Tried(94) && !Tried(95) && !Tried(96); Follows(89, 97); }
  }

  lemma Primes6(t: nat)
    requires 24 <= t < 28
    ensures |PRIMES| == 64 && Successor(PRIMES[t], PRIMES[t + 1])
  {
    if t == 24 { Follows(97, 101); }
    else if t == 25 { Follows(101, 103); }
    else if t == 26 { Follows(103, 107); }
    else { Follows(107, 109); }
  }

  lemma Primes7(t: nat)
    requires 28 <= t < 32
    ensures |PRIMES| == 64 && Successor(PRIMES[t], PRIMES[t + 1])
  {
    if t == 28 { Follows(109, 113); }
    else if t == 29 { assert !Tried(114) && !Tried(115) && !Tried(116) && !Tried(117) && !Tried(118) && !Tried(119) && !Tried(120) && !Tried(121) && !Tried(122) && !Tried(123) && !Tried(124) && !Tried(125) && !Tried(126); Follows(113, 127); }
    else if t == 30 { Follows(127, 131); }
    else { Follows(131, 137); }
  }

  lemma Primes8(t: nat)
    requires 32 <= t < 36
    ensures |PRIMES| == 64 && Successor(PRIMES[t], PRIMES[t + 1])
  {
    if t == 32 { Follows(137, 139); }
    else if t == 33 { assert !Tried(140) && !Tried(141) && !Tried(142) && !Tried(143) && !Tried(144) && !Tried(145) && !Tried(146) && !Tried(147) && !Tried(148); Follows(139, 149); }
    else if t == 34 { Follows(149, 151); }
    else { Follows(151, 157); }
  }

  lemma Primes9(t: nat)
    requires 36 <= t < 40
    ensures |PRIMES| == 64 && Successor(PRIMES[t], PRIMES[t + 1])
  {
    if t == 36 { Follows(157, 163); }
    else if t == 37 { Follows(163, 167); }
    else if t == 38 { Follows(167, 173); }
    else { Follows(173, 179); }
  }

  lemma Primes10(t: nat)
    requires 40 <= t < 44
    ensures |PRIMES| == 64 && Successor(PRIMES[t], PRIMES[t + 1])
  {
    if t == 40 { Follows(179, 181); }
    else if t == 41 { assert !Tried(182) && !Tried(183) && !Tried(184) && !Tried(185) && !Tried(186) && !Tried(187) && !Tried(188) && !Tried(189) && !Tried(190); Follows(181, 191); }
    else if t == 42 { Follows(191, 193); }
    else { Follows(193, 197); }
  }

  lemma Primes11(t: nat)
    requires 44 <= t < 48
    ensures |PRIMES| == 64 && Successor(PRIMES[t], PRIMES[t + 1])
  {
    if t == 44 { Follows(197, 199); }
    else if t == 45 { assert !Tried(200) && !Tried(201) && !Tried(202) && !Tried(203) && !Tried(204) && !Tried(205) && !Tried(206) && !Tried(207) && !Tried(208) && !Tried(209) && !Tried(210); Follows(199, 211); }
    else if t == 46 { assert !Tried(212) && !Tried(213) && !Tried(214) && !Tried(215) && !Tried(216) && !Tried(217) && !Tried(218) && !Tried(219) && !Tried(220) && !Tried(221) && !Tried(222); Follows(211, 223); }
    else { Follows(223, 227); }
  }

  lemma Primes12(t: nat)
    requires 48 <= t < 52
    ensures |PRIMES| == 64 && Successor(PRIMES[t], PRIMES[t + 1])
  {
    if t == 48 { Follows(227, 229); }
    else if t == 49 { Follows(229, 233); }
    else if t == 50 { Follows(233, 239); }
    else { Follows(239, 241); }
  }

  lemma Primes13(t: nat)
    requires 52 <= t < 56
    ensures |PRIMES| == 64 && Successor(PRIMES[t], PRIMES[t + 1])
  {
    if t == 52 { assert !Tried(242) && !Tried(243) && !Tried(244) && !Tried(245) && !Tried(246) && !Tried(247) && !Tried(248) && !Tried(249) && !Tried(250); Follows(241, 251); }
    else if t == 53 { Follows(251, 257); }
    else if t == 54 { Follows(257, 263); }
    else { Follows(263, 269); }
  }

  lemma Primes14(t: nat)
    requires 56 <= t < 60
    ensures |PRIMES| == 64 && Successor(PRIMES[t], PRIMES[t + 1])
  {
    if t == 56 { Follows(269, 271); }
    else if t == 57 { Follows(271, 277); }
    else if t == 58 { Follows(277, 281); }
    else { Follows(281, 283); }
  }

  lemma Primes15(t: nat)
    requires 60 <= t < 63
    ensures |PRIMES| == 64 && Successor(PRIMES[t], PRIMES[t + 1])
  {
    if t == 60 { assert !Tried(284) && !Tried(285) && !Tried(286) && !Tried(287) && !Tried(288) && !Tried(289) && !Tried(290) && !Tried(291) && !Tried(292); Follows(283, 293); }
    else if t == 61 { assert !Tried(294) && !Tried(295) && !Tried(296) && !Tried(297) && !Tried(298) && !Tried(299) && !Tried(300) && !Tried(301) && !Tried(302) && !Tried(303) && !Tried(304) && !Tried(305) && !Tried(306); Follows(293, 307); }
    else { Follows(307, 311); }
  }

  lemma FollowsSmall(p: nat, q: nat)
    requires 2 <= p < q < 18
    requires (forall d: nat :: 2 <= d < q ==> q % d != 0) && (forall m: nat :: p < m < q ==> m % 2 == 0 || m == 9 || m == 15)
    ensures Successor(p, q)
  {
    forall m: nat | p < m < q ensures !IsPrime(m) {
      if m % 2 == 0 { assert Divides(2, m); } else { assert Divides(3, m); }
    }
  }

  // The list starts with 2 and goes from each prime to the next.
  lemma PrimesInOrder(t: nat)
    requires t < 63
    ensures |PRIMES| == 64 && PRIMES[0] == 2 && IsPrime(2) && Successor(PRIMES[t], PRIMES[t + 1])
  {
    hide Successor;
    if t < 4 { Primes0(t); }
    else if t < 8 { Primes1(t); }
    else if t < 12 { Primes2(t); }
    else if t < 16 { Primes3(t); }
    else if t < 20 { Primes4(t); }
    else if t < 24 { Primes5(t); }
    else if t < 28 { Primes6(t); }
    else if t < 32 { Primes7(t); }
    else if t < 36 { Primes8(t); }
    else if t < 40 { Primes9(t); }
    else if t < 44 { Primes10(t); }
    else if t < 48 { Primes11(t); }
    else if t < 52 { Primes12(t); }
    else if t < 56 { Primes13(t); }
    else if t < 60 { Primes14(t); }
    else { Primes15(t); }
  }

  // ----- the fractional parts -----

  function Cube(x: nat): nat { x * x * x }

  // n + k / 2^32 is the cube root of p, cut off after 32 binary places.
  predicate CutCubeRoot(p: nat, n: nat, k: nat) {
    k < 0x1_0000_0000 && Cube(n * 0x1_0000_0000 + k) <= p * Cube(0x1_0000_0000) < Cube(n * 0x1_0000_0000 + k + 1)
  }

  ghost predicate CubeRootBits(p: nat, k: nat) { exists n: nat :: CutCubeRoot(p, n, k) }

  predicate CutSquareRoot(p: nat, n: nat, k: nat) {
    var x := n * 0x1_0000_0000 + k;
    k < 0x1_0000_0000 && x * x <= p * 0x1_0000_0000_0000_0000 < (x + 1) * (x + 1)
  }

  ghost predicate SquareRootBits(p: nat, k: nat) { exists n: nat :: CutSquareRoot(p, n, k) }

  lemma Roots0(t: nat)
    requires 0 <= t < 4
    ensures |PRIMES| == 64 && CubeRootBits(PRIMES[t], RoundConstant(t) as nat)
  {
    if t == 0 { assert CutCubeRoot(2, 1, 0x428a2f98); }
    else if t == 1 { assert CutCubeRoot(3, 1, 0x71374491); }
    else if t == 2 { assert CutCubeRoot(5, 1, 0xb5c0fbcf); }
    else { assert CutCubeRoot(7, 1, 0xe9b5dba5); }
  }

  lemma Roots1(t: nat)
    requires 4 <= t < 8
    ensures |PRIMES| == 64 && CubeRootBits(PRIMES[t], RoundConstant(t) as nat)
  {
    if t == 4 { assert CutCubeRoot(11, 2, 0x3956c25b); }
    else if t == 5 { assert CutCubeRoot(13, 2, 0x59f111f1); }
    else if t == 6 { assert CutCubeRoot(17, 2, 0x923f82a4); }
    else { assert CutCubeRoot(19, 2, 0xab1c5ed5); }
  }

  lemma Roots2(t: nat)
    requires 8 <= t < 12
    ensures |PRIMES| == 64 && CubeRootBits(PRIMES[t], RoundConstant(t) as nat)
  {
    if t == 8 { assert CutCubeRoot(23, 2, 0xd807aa98); }
    else if t == 9 { assert CutCubeRoot(29, 3, 0x12835b01); }
    else if t == 10 { assert CutCubeRoot(31, 3, 0x243185be); }
    else { assert CutCubeRoot(37, 3, 0x550c7dc3); }
  }

  lemma Roots3(t: nat)
    requires 12 <= t < 16
    ensures |PRIMES| == 64 && CubeRootBits(PRIMES[t], RoundConstant(t) as nat)
  {
    if t == 12 { assert CutCubeRoot(41, 3, 0x72be5d74); }
    else if t == 13 { assert CutCubeRoot(43, 3, 0x80deb1fe); }
    else if t == 14 { assert CutCubeRoot(47, 3, 0x9bdc06a7); }
    else { assert CutCubeRoot(53, 3, 0xc19bf174); }
  }

  lemma Roots4(t: nat)
    requires 16 <= t < 20
    ensures |PRIMES| == 64 && CubeRootBits(PRIMES[t], RoundConstant(t) as nat)
  {
    if t == 16 { assert CutCubeRoot(59, 3, 0xe49b69c1); }
    else if t == 17 { assert CutCubeRoot(61, 3, 0xefbe4786); }
    else if t == 18 { assert CutCubeRoot(67, 4, 0x0fc19dc6); }
    else { assert CutCubeRoot(71, 4, 0x240ca1cc); }
  }

  lemma Roots5(t: nat)
    requires 20 <= t < 24
    ensures |PRIMES| == 64 && CubeRootBits(PRIMES[t], RoundConstant(t) as nat)
  {
    if t == 20 { assert CutCubeRoot(73, 4, 0x2de92c6f); }
    else if t == 21 { assert CutCubeRoot(79, 4, 0x4a7484aa); }
    else if t == 22 { assert CutCubeRoot(83, 4, 0x5cb0a9dc); }
    else { assert CutCubeRoot(89, 4, 0x76f988da); }
  }

  lemma Roots6(t: nat)
    requires 24 <= t < 28
    ensures |PRIMES| == 64 && CubeRootBits(PRIMES[t], RoundConstant(t) as nat)
  {
    if t == 24 { assert CutCubeRoot(97, 4, 0x983e5152); }
    else if t == 25 { assert CutCubeRoot(101, 4, 0xa831c66d); }
    else if t == 26 { assert CutCubeRoot(103, 4, 0xb00327c8); }
    else { assert CutCubeRoot(107, 4, 0xbf597fc7); }
  }

  lemma Roots7(t: nat)
    requires 28 <= t < 32
    ensures |PRIMES| == 64 && CubeRootBits(PRIMES[t], RoundConstant(t) as nat)
  {
    if t == 28 { assert CutCubeRoot(109, 4, 0xc6e00bf3); }
    else if t == 29 { assert CutCubeRoot(113, 4, 0xd5a79147); }
    else if t == 30 { assert CutCubeRoot(127, 5, 0x06ca6351); }
    else { assert CutCubeRoot(131, 5, 0x14292967); }
  }

  lemma Roots8(t: nat)
    requires 32 <= t < 36
    ensures |PRIMES| == 64 && CubeRootBits(PRIMES[t], RoundConstant(t) as nat)
  {
    if t == 32 { assert CutCubeRoot(137, 5, 0x27b70a85); }
    else if t == 33 { assert CutCubeRoot(139, 5, 0x2e1b2138); }
    else if t == 34 { assert CutCubeRoot(149, 5, 0x4d2c6dfc); }
    else { assert CutCubeRoot(151, 5, 0x53380d13); }
  }

  lemma Roots9(t: nat)
    requires 36 <= t < 40
    ensures |PRIMES| == 64 && CubeRootBits(PRIMES[t], RoundConstant(t) as nat)
  {
    if t == 36 { assert CutCubeRoot(157, 5, 0x650a7354); }
    else if t == 37 { assert CutCubeRoot(163, 5, 0x766a0abb); }
    else if t == 38 { assert CutCubeRoot(167, 5, 0x81c2c92e); }
    else { assert CutCubeRoot(173, 5, 0x92722c85); }
  }

  lemma Roots10(t: nat)
    requires 40 <= t < 44
    ensures |PRIMES| == 64 && CubeRootBits(PRIMES[t], RoundConstant(t) as nat)
  {
    if t == 40 { assert CutCubeRoot(179, 5, 0xa2bfe8a1); }
    else if t == 41 { assert CutCubeRoot(181, 5, 0xa81a664b); }
    else if t == 42 { assert CutCubeRoot(191, 5, 0xc24b8b70); }
    else { assert CutCubeRoot(193, 5, 0xc76c51a3); }
  }

  lemma Roots11(t: nat)
    requires 44 <= t < 48
    ensures |PRIMES| == 64 && CubeRootBits(PRIMES[t], RoundConstant(t) as nat)
  {
    if t == 44 { assert CutCubeRoot(197, 5, 0xd192e819); }
    else if t == 45 { assert CutCubeRoot(199, 5, 0xd6990624); }
    else if t == 46 { assert CutCubeRoot(211, 5, 0xf40e3585); }
    else { assert CutCubeRoot(223, 6, 0x106aa070); }
  }

  lemma Roots12(t: nat)
    requires 48 <= t < 52
    ensures |PRIMES| == 64 && CubeRootBits(PRIMES[t], RoundConstant(t) as nat)
  {
    if t == 48 { assert CutCubeRoot(227, 6, 0x19a4c116); }
    else if t == 49 { assert CutCubeRoot(229, 6, 0x1e376c08); }
    else if t == 50 { assert CutCubeRoot(233, 6, 0x2748774c); }
    else { assert CutCubeRoot(239, 6, 0x34b0bcb5); }
  }

  lemma Roots13(t: nat)
    requires 52 <= t < 56
    ensures |PRIMES| == 64 && CubeRootBits(PRIMES[t], RoundConstant(t) as nat)
  {
    if t == 52 { assert CutCubeRoot(241, 6, 0x391c0cb3); }
    else if t == 53 { assert CutCubeRoot(251, 6, 0x4ed8aa4a); }
    else if t == 54 { assert CutCubeRoot(257, 6, 0x5b9cca4f); }
    else { assert CutCubeRoot(263, 6, 0x682e6ff3); }
  }

  lemma Roots14(t: nat)
    requires 56 <= t < 60
    ensures |PRIMES| == 64 && CubeRootBits(PRIMES[t], RoundConstant(t) as nat)
  {
    if t == 56 { assert CutCubeRoot(269, 6, 0x748f82ee); }
    else if t == 57 { assert CutCubeRoot(271, 6, 0x78a5636f); }
    else if t == 58 { assert CutCubeRoot(277, 6, 0x84c87814); }
    else { assert CutCubeRoot(281, 6, 0x8cc70208); }
  }

  lemma Roots15(t: nat)
    requires 60 <= t < 64
    ensures |PRIMES| == 64 && CubeRootBits(PRIMES[t], RoundConstant(t) as nat)
  {
    if t == 60 { assert CutCubeRoot(283, 6, 0x90befffa); }
    else if t == 61 { assert CutCubeRoot(293, 6, 0xa4506ceb); }
    else if t == 62 { assert CutCubeRoot(307, 6, 0xbef9a3f7); }
    else { assert CutCubeRoot(311, 6, 0xc67178f2); }
  }

  // Every round constant is cut from the cube root of the prime in its place.
  lemma RoundConstantsAreRoots(t: nat)
    requires t < 64
    ensures |PRIMES| == 64 && CubeRootBits(PRIMES[t], RoundConstant(t) as nat)
  {
    hide CubeRootBits;
    if t < 4 { Roots0(t); }
    else if t < 8 { Roots1(t); }
    else if t < 12 { Roots2(t); }
    else if t < 16 { Roots3(t); }
    else if t < 20 { Roots4(t); }
    else if t < 24 { Roots5(t); }
    else if t < 28 { Roots6(t); }
    else if t < 32 { Roots7(t); }
    else if t < 36 { Roots8(t); }
    else if t < 40 { Roots9(t); }
    else if t < 44 { Roots10(t); }
    else if t < 48 { Roots11(t); }
    else if t < 52 { Roots12(t); }
    else if t < 56 { Roots13(t); }
    else if t < 60 { Roots14(t); }
    else { Roots15(t); }
  }

  // The initial state is cut from the square roots of the first eight primes.
  lemma InitialStateIsRoots()
    ensures SquareRootBits(2, INIT.a as nat)
    ensures SquareRootBits(3, INIT.b as nat)
    ensures SquareRootBits(5, INIT.c as nat)
    ensures SquareRootBits(7, INIT.d as nat)
    ensures SquareRootBits(11, INIT.e as nat)
    ensures SquareRootBits(13, INIT.f as nat)
    ensures SquareRootBits(17, INIT.g as nat)
    ensures SquareRootBits(19, INIT.h as nat)
  {
    hide SquareRootBits;
    Square0();
    Square1();
    Square2();
    Square3();
    Square4();
    Square5();
    Square6();
    Square7();
  }

  lemma Square0() ensures SquareRootBits(2, INIT.a as nat) {
    assert CutSquareRoot(2, 1, 0x6a09e667);
  }

  lemma Square1() ensures SquareRootBits(3, INIT.b as nat) {
    assert CutSquareRoot(3, 1, 0xbb67ae85);
  }

  lemma Square2() ensures SquareRootBits(5, INIT.c as nat) {
    assert CutSquareRoot(5, 2, 0x3c6ef372);
  }

  lemma Square3() ensures SquareRootBits(7, INIT.d as nat) {
    assert CutSquareRoot(7, 2, 0xa54ff53a);
  }

  lemma Square4() ensures SquareRootBits(11, INIT.e as nat) {
    assert CutSquareRoot(11, 3, 0x510e527f);
  }

  lemma Square5() ensures SquareRootBits(13, INIT.f as nat) {
    assert CutSquareRoot(13, 3, 0x9b05688c);
  }

  lemma Square6() ensures SquareRootBits(17, INIT.g as nat) {
    assert CutSquareRoot(17, 4, 0x1f83d9ab);
  }

  lemma Square7() ensures SquareRootBits(19, INIT.h as nat) {
    assert CutSquareRoot(19, 4, 0x5be0cd19);
  }
}
