// Model of AppendCompactSize and ReadCompactSize in src/Blocxxi/Bitcoin/adapter.cpp.
// Offsets are added as mathematical integers.
module CompactSize {
  import opened Wrappers
  import opened Bytes
  import opened Slices

  type Size = x: nat | x < 0x1_0000_0000_0000_0000

  function Compact(v: Size): (s: seq<Byte>)
    ensures |s| >= 1 && (v > 0 ==> s[0] != 0)
  {
    if v < 253 then [v]
    else if v <= 0xFFFF then [0xFD] + LittleEndian(v, 2)
    else if v <= 0xFFFF_FFFF then [0xFE] + LittleEndian(v, 4)
    else [0xFF] + LittleEndian(v, 8)
  }

  datatype Read = Read(value: nat, end: nat)

  function ReadCompact(s: seq<Byte>, offset: nat): (r: Option<Read>)
    ensures r.Some? ==> offset < r.value.end <= |s|
  {
    if offset >= |s| then None
    else
      var first := s[offset];
      if first < 253 then Some(Read(first, offset + 1))
      else
        var width := if first == 0xFD then 2 else if first == 0xFE then 4 else 8;
        if offset + 1 + width > |s| then None
        else Some(Read(LittleNumber(s[offset + 1..offset + 1 + width]), offset + 1 + width))
  }

  lemma {:induction false} LittleNumberNext(s: seq<Byte>, n: nat)
    requires n < |s|
    ensures LittleNumber(s[..n + 1]) == LittleNumber(s[..n]) + s[n] * Pow256(n)
    decreases n
  {
    if n > 0 {
      LittleNumberNext(s[1..], n - 1);
      assert s[..n + 1][1..] == s[1..][..n] && s[..n][1..] == s[1..][..n - 1];
      assert 256 * (s[n] * Pow256(n - 1)) == s[n] * Pow256(n);
    } else {
      assert s[..1][1..] == [];
    }
  }

  // The byte loop of ReadCompactSize: each byte is or-ed in above the ones read,
  // where the value so far has no bits.
  method ReadLittle(s: seq<Byte>) returns (v: nat)
    ensures v == LittleNumber(s)
  {
    v := 0;
    var index := 0;
    while index < |s|
      invariant 0 <= index <= |s| && v == LittleNumber(s[..index]) && v < Pow256(index)
    {
      LittleNumberNext(s, index);
      LittleNumberBound(s[..index + 1]);
      v := v + s[index] * Pow256(index);
      index := index + 1;
    }
    assert s[..|s|] == s;
  }

  method ReadCompactSize(s: seq<Byte>, offset: nat) returns (r: Option<Read>)
    ensures r == ReadCompact(s, offset)
  {
    if offset >= |s| {
      return None;
    }
    var first := s[offset];
    if first < 253 {
      return Some(Read(first, offset + 1));
    }
    var width := if first == 0xFD then 2 else if first == 0xFE then 4 else 8;
    if offset + 1 + width > |s| {
      return None;
    }
    var value := ReadLittle(s[offset + 1..offset + 1 + width]);
    return Some(Read(value, offset + 1 + width));
  }

  lemma CompactRoundTrip(v: Size, s: seq<Byte>, offset: nat)
    requires At(s, offset, Compact(v))
    ensures ReadCompact(s, offset) == Some(Read(v, offset + |Compact(v)|))
  {
    hide LittleEndian, LittleNumber;
    Widths();
    var width := if v < 253 then 0 else if v <= 0xFFFF then 2 else if v <= 0xFFFF_FFFF then 4 else 8;
    var digits := LittleEndian(v, width);
    if v >= 253 {
      AtConcat(s, offset, [Compact(v)[0]], digits);
      assert Compact(v) == [Compact(v)[0]] + digits;
      LittleEndianInverse(v, width);
    }
    assert s[offset] == s[offset..offset + |Compact(v)|][0];
  }

  // The four forms, at their bounds.
  lemma KnownSizes()
    ensures Compact(0) == [0] && Compact(252) == [252]
    ensures Compact(253) == [0xFD, 253, 0] && Compact(0xFFFF) == [0xFD, 0xFF, 0xFF]
    ensures Compact(0x1_0000) == [0xFE, 0, 0, 1, 0] && Compact(0xFFFF_FFFF) == [0xFE, 0xFF, 0xFF, 0xFF, 0xFF]
    ensures Compact(0x1_0000_0000) == [0xFF, 0, 0, 0, 0, 1, 0, 0, 0]
  {
    hide LittleEndian;
    TwoBytes(253, 253, 0);
    TwoBytes(0xFFFF, 0xFF, 0xFF);
    FourBytes(0x1_0000, 0, 1);
    FourBytes(0xFFFF_FFFF, 0xFFFF, 0xFFFF);
    TwoBytes(0, 0, 0);
    TwoBytes(1, 1, 0);
    EightBytes(0x1_0000_0000, 0, 1);
    FourBytes(0, 0, 0);
    FourBytes(1, 1, 0);
  }

  lemma TwoBytes(v: nat, a: Byte, b: Byte)
    requires v == a + 256 * b
    ensures LittleEndian(v, 2) == [a, b]
  {
    assert v % 256 == a && v / 256 == b;
    assert LittleEndian(b, 1) == [b] + LittleEndian(b / 256, 0);
  }

  lemma FourBytes(v: nat, low: nat, high: nat)
    requires v == low + 0x1_0000 * high && low < 0x1_0000
    ensures LittleEndian(v, 4) == LittleEndian(low, 2) + LittleEndian(high, 2)
  {
    Widths();
    Appended(v, low, high, 2, 2);
  }

  lemma EightBytes(v: nat, low: nat, high: nat)
    requires v == low + 0x1_0000_0000 * high && low < 0x1_0000_0000
    ensures LittleEndian(v, 8) == LittleEndian(low, 4) + LittleEndian(high, 4)
  {
    Widths();
    Appended(v, low, high, 4, 4);
  }

  lemma {:induction false} Appended(v: nat, low: nat, high: nat, n: nat, m: nat)
    requires v == low + Pow256(n) * high && low < Pow256(n)
    ensures LittleEndian(v, n + m) == LittleEndian(low, n) + LittleEndian(high, m)
    decreases n
  {
    if n > 0 {
      var p := Pow256(n - 1);
      assert Pow256(n) * high == 256 * (p * high);
      LowDigit(v, low, p * high);
      assert low / 256 < p;
      Appended(v / 256, low / 256, high, n - 1, m);
      assert LittleEndian(low, n) == [low % 256] + LittleEndian(low / 256, n - 1);
    } else {
      assert low == 0 && v == high;
    }
  }

  lemma LowDigit(v: nat, low: nat, x: nat)
    requires v == low + 256 * x
    ensures v % 256 == low % 256 && v / 256 == low / 256 + x
  {
  }
}
