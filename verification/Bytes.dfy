// Byte sequences and the numbers they stand for.
module Bytes {

  type Byte = x: int | 0 <= x < 256

  type Hash32 = s: seq<Byte> | |s| == 32 witness Zeros(32)

  function Zeros(n: nat): (s: seq<Byte>)
    ensures |s| == n && forall i :: 0 <= i < n ==> s[i] == 0
  {
    seq(n, _ => 0)
  }

  function Pow256(n: nat): (p: nat)
    ensures p > 0
  {
    if n == 0 then 1 else 256 * Pow256(n - 1)
  }

  // v >> 8 * k
  function Shift(v: nat, k: nat): nat
    requires k <= 7
  {
    if k == 0 then v
    else if k == 1 then v / 0x100
    else if k == 2 then v / 0x1_0000
    else if k == 3 then v / 0x100_0000
    else if k == 4 then v / 0x1_0000_0000
    else if k == 5 then v / 0x100_0000_0000
    else if k == 6 then v / 0x1_0000_0000_0000
    else v / 0x100_0000_0000_0000
  }

  lemma ShiftStep(v: nat, k: nat)
    requires k < 7
    ensures Shift(v, k) / 256 == Shift(v, k + 1)
  {
  }

  // (v >> 8 * k) & 0xFF
  function ByteAt(v: nat, k: nat): Byte
    requires k <= 7
  {
    Shift(v, k) % 256
  }

  // ----- big endian -----

  function Number(s: seq<Byte>): nat {
    if s == [] then 0 else 256 * Number(s[..|s| - 1]) + s[|s| - 1]
  }

  // One more byte of the big-endian form of v.
  lemma NumberStep(s: seq<Byte>, k: nat, high: nat, v: nat)
    requires 0 < k <= |s| && Number(s[..k - 1]) == high && v / 256 == high && s[k - 1] == v % 256
    ensures Number(s[..k]) == v
  {
    assert s[..k][..k - 1] == s[..k - 1];
  }

  // Bytes k, k-1, ..., 0 of v stand at positions 0, 1, ..., k.
  lemma {:induction false} NumberOfBytes(s: seq<Byte>, v: nat, k: nat, n: nat)
    requires k <= 7 && n <= k + 1 <= |s| && Shift(v, k) < 256
    requires forall i :: 0 <= i <= k ==> s[i] == ByteAt(v, k - i)
    ensures n > 0 ==> Number(s[..n]) == Shift(v, k + 1 - n)
    decreases n
  {
    if n == 1 {
      assert s[..1][..0] == [];
    } else if n > 1 {
      NumberOfBytes(s, v, k, n - 1);
      ShiftStep(v, k + 1 - n);
      NumberStep(s, n, Shift(v, k + 2 - n), Shift(v, k + 1 - n));
    }
  }

  lemma {:induction false} NumberConcat(x: seq<Byte>, y: seq<Byte>)
    ensures Number(x + y) == Number(x) * Pow256(|y|) + Number(y)
    decreases |y|
  {
    if y == [] {
      assert x + y == x;
    } else {
      var n := |y| - 1;
      NumberConcat(x, y[..n]);
      assert (x + y)[..|x| + n] == x + y[..n];
      OneMoreDigit(Number(x), Pow256(n), Number(y[..n]), y[n]);
    }
  }

  lemma OneMoreDigit(a: nat, p: nat, b: nat, digit: nat)
    ensures 256 * (a * p + b) + digit == a * (256 * p) + (256 * b + digit)
  {
    assert 256 * (a * p) == a * (256 * p);
  }

  lemma {:induction false} NumberZeros(n: nat)
    ensures Number(Zeros(n)) == 0
  {
    if n > 0 {
      NumberZeros(n - 1);
      assert Zeros(n)[..n - 1] == Zeros(n - 1);
    }
  }

  lemma {:induction false} NumberBound(s: seq<Byte>)
    ensures Number(s) < Pow256(|s|)
  {
    if s != [] { NumberBound(s[..|s| - 1]); }
  }

  // std::array comparison: lexicographic on the bytes.
  predicate Less(x: seq<Byte>, y: seq<Byte>)
    requires |x| == |y|
  {
    x != [] && (x[0] < y[0] || (x[0] == y[0] && Less(x[1..], y[1..])))
  }

  lemma NumberHead(s: seq<Byte>)
    requires s != []
    ensures Number(s) == s[0] * Pow256(|s| - 1) + Number(s[1..]) && Number(s[1..]) < Pow256(|s| - 1)
  {
    NumberConcat([s[0]], s[1..]);
    assert s == [s[0]] + s[1..];
    assert [s[0]][..0] == [];
    assert Number([s[0]]) == s[0];
    NumberBound(s[1..]);
  }

  // Arrays that differ in their first n bytes compare as those.
  lemma {:induction false} LessByPrefix(x: seq<Byte>, y: seq<Byte>, n: nat)
    requires |x| == |y| && n <= |x| && Less(x[..n], y[..n])
    ensures Less(x, y)
    decreases n
  {
    if x[0] == y[0] {
      assert x[..n][1..] == x[1..][..n - 1] && y[..n][1..] == y[1..][..n - 1];
      LessByPrefix(x[1..], y[1..], n - 1);
    }
  }

  lemma {:induction false} LessTotal(x: seq<Byte>, y: seq<Byte>)
    requires |x| == |y|
    ensures Less(x, y) || Less(y, x) || x == y
  {
    if x != [] {
      LessTotal(x[1..], y[1..]);
      assert x == [x[0]] + x[1..] && y == [y[0]] + y[1..];
    }
  }

  lemma LessAsymmetric(x: seq<Byte>, y: seq<Byte>)
    requires |x| == |y|
    ensures !(Less(x, y) && Less(y, x))
  {
    LessIsNumeric(x, y);
    LessIsNumeric(y, x);
  }

  lemma {:induction false} LessConcat(s: seq<Byte>, u: seq<Byte>, t: seq<Byte>, v: seq<Byte>)
    requires |s| == |t| && |u| == |v|
    ensures Less(s + u, t + v) <==> Less(s, t) || (s == t && Less(u, v))
  {
    if s == [] {
      assert s + u == u && t + v == v;
    } else {
      LessConcat(s[1..], u, t[1..], v);
      assert (s + u)[1..] == s[1..] + u && (t + v)[1..] == t[1..] + v;
      assert s == [s[0]] + s[1..] && t == [t[0]] + t[1..];
    }
  }

  lemma {:induction false} Gap(a: nat, b: nat, p: nat)
    requires a < b
    ensures b * p >= a * p + p
    decreases b
  {
    assert b * p == (b - 1) * p + p;
    if a < b - 1 { Gap(a, b - 1, p); }
  }

  lemma LeadingDigit(a: nat, b: nat, p: nat, r: nat, q: nat)
    requires r < p && q < p
    ensures a * p + r < b * p + q <==> a < b || (a == b && r < q)
  {
    if a < b { Gap(a, b, p); } else if b < a { Gap(b, a, p); }
  }

  // For byte arrays of one length, the array order is the order of the numbers.
  lemma {:induction false} LessIsNumeric(x: seq<Byte>, y: seq<Byte>)
    requires |x| == |y|
    ensures Less(x, y) <==> Number(x) < Number(y)
  {
    hide Number, Pow256;
    if x != [] {
      NumberHead(x);
      NumberHead(y);
      LessIsNumeric(x[1..], y[1..]);
      LeadingDigit(x[0], y[0], Pow256(|x| - 1), Number(x[1..]), Number(y[1..]));
    } else {
      assert x == y;
    }
  }

  // ----- little endian -----

  // AppendLittleEndian: the low `width` bytes, least significant first.
  function LittleEndian(v: nat, width: nat): (s: seq<Byte>)
    ensures |s| == width
  {
    if width == 0 then [] else [v % 256] + LittleEndian(v / 256, width - 1)
  }

  function LittleNumber(s: seq<Byte>): nat {
    if s == [] then 0 else s[0] + 256 * LittleNumber(s[1..])
  }

  lemma {:induction false} LittleEndianInverse(v: nat, width: nat)
    requires v < Pow256(width)
    ensures LittleNumber(LittleEndian(v, width)) == v
  {
    if width > 0 {
      LittleEndianInverse(v / 256, width - 1);
      assert LittleEndian(v, width)[1..] == LittleEndian(v / 256, width - 1);
    }
  }

  lemma {:induction false} LittleNumberBound(s: seq<Byte>)
    ensures LittleNumber(s) < Pow256(|s|)
  {
    if s != [] { LittleNumberBound(s[1..]); }
  }

  lemma Widths()
    ensures Pow256(1) == 0x100 && Pow256(2) == 0x1_0000 && Pow256(4) == 0x1_0000_0000
    ensures Pow256(8) == 0x1_0000_0000_0000_0000
  {
    assert Pow256(3) == 256 * Pow256(2) && Pow256(4) == 256 * Pow256(3);
    assert Pow256(5) == 256 * Pow256(4) && Pow256(6) == 256 * Pow256(5);
    assert Pow256(7) == 256 * Pow256(6) && Pow256(8) == 256 * Pow256(7);
  }
}
