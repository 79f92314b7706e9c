// Model of TargetFromCompact in src/Blocxxi/Bitcoin/adapter.cpp.
module Target {
  import opened Wrappers
  import opened Bytes

  type Bits = x: nat | x < 0x1_0000_0000

  function Exponent(bits: Bits): nat { bits / 0x100_0000 }
  function Mantissa(bits: Bits): nat { bits % 0x80_0000 }
  predicate SignBit(bits: Bits) { bits / 0x80_0000 % 2 != 0 }

  // The low three bytes of a number, most significant first.
  function Three(m: nat): seq<Byte> { [m / 0x1_0000 % 256, m / 0x100 % 256, m % 256] }

  // `mantissa >>= 8 * (3 - exponent)`: dropping up to three bytes
  function ShiftDown(m: nat, bytes: nat): nat
    requires bytes <= 3
  {
    if bytes == 0 then m else if bytes == 1 then m / 0x100 else if bytes == 2 then m / 0x1_0000 else m / 0x100_0000
  }

  lemma ShiftDownIsFloor(m: nat, bytes: nat)
    requires bytes <= 3
    ensures ShiftDown(m, bytes) * Pow256(bytes) <= m < ShiftDown(m, bytes) * Pow256(bytes) + Pow256(bytes)
  {
    Widths();
    assert Pow256(3) == 256 * Pow256(2);
  }

  // The number the compact form denotes: mantissa * 256^(exponent - 3), rounded down.
  function Denoted(bits: Bits): nat {
    var e := Exponent(bits);
    if e >= 3 then Mantissa(bits) * Pow256(e - 3) else ShiftDown(Mantissa(bits), 3 - e)
  }

  predicate Derivable(bits: Bits) { !SignBit(bits) && Mantissa(bits) != 0 && Exponent(bits) <= 32 }

  method TargetFromCompact(bits: Bits, powLimit: Hash32) returns (target: Option<Hash32>)
    ensures target.Some? <==> Derivable(bits) && Denoted(bits) <= Number(powLimit)
    ensures target.Some? ==> Number(target.value) == Denoted(bits)
  {
    hide Denoted, Number, Pow256, Three, ShiftDown;
    var exponent, mantissa := Exponent(bits), Mantissa(bits);
    if SignBit(bits) || mantissa == 0 {
      return None;
    }
    var bytes := new Byte[32](_ => 0);
    if exponent <= 3 {
      var m := ShiftDown(mantissa, 3 - exponent);
      var three := Three(m);
      ThreeSize(m);
      bytes[29], bytes[30], bytes[31] := three[0], three[1], three[2];
      Placed(bytes[..], three, 0);
      SmallExponent(bits);
    } else {
      var offset := exponent - 3;
      if offset > 29 {
        return None;
      }
      var three := Three(mantissa);
      ThreeSize(mantissa);
      bytes[32 - offset - 3], bytes[32 - offset - 2], bytes[32 - offset - 1] := three[0], three[1], three[2];
      Placed(bytes[..], three, offset);
      LargeExponent(bits);
    }
    var value: Hash32 := bytes[..];
    LessIsNumeric(powLimit, value);
    if Less(powLimit, value) {
      return None;
    }
    return Some(value);
  }

  lemma ThreeSize(m: nat)
    ensures |Three(m)| == 3
  {
  }

  // Three bytes standing `offset` bytes before the end, zeros elsewhere.
  lemma Placed(s: seq<Byte>, three: seq<Byte>, offset: nat)
    requires |s| == 32 && |three| == 3 && offset <= 29
    requires s[29 - offset] == three[0] && s[30 - offset] == three[1] && s[31 - offset] == three[2]
    requires forall i :: 0 <= i < 32 && !(29 - offset <= i < 32 - offset) ==> s[i] == 0
    ensures Number(s) == Number(three) * Pow256(offset)
  {
    hide Number, Pow256;
    var high, low := Zeros(29 - offset), Zeros(offset);
    assert s == high + (three + low);
    NumberConcat(high, three + low);
    NumberConcat(three, low);
    NumberZeros(29 - offset);
    NumberZeros(offset);
  }

  lemma ThreeIsNumber(m: nat)
    requires m < 0x100_0000
    ensures Number(Three(m)) == m
  {
    var t := Three(m);
    var a: int, b: int, c: int := t[0], t[1], t[2];
    assert t[..2][..1] == t[..1] && t[..1][..0] == [];
    assert Number(t[..1]) == a;
    assert Number(t[..2]) == 256 * a + b;
    assert Number(t) == 256 * (256 * a + b) + c;
  }

  lemma SmallExponent(bits: Bits)
    requires Exponent(bits) <= 3
    ensures Number(Three(ShiftDown(Mantissa(bits), 3 - Exponent(bits)))) * Pow256(0) == Denoted(bits)
  {
    var m := ShiftDown(Mantissa(bits), 3 - Exponent(bits));
    ThreeIsNumber(m);
    assert Pow256(0) == 1;
  }

  lemma LargeExponent(bits: Bits)
    requires Exponent(bits) > 3
    ensures Number(Three(Mantissa(bits))) * Pow256(Exponent(bits) - 3) == Denoted(bits)
  {
    ThreeIsNumber(Mantissa(bits));
  }

  // The three fields of the compact form are its base-2^23, 2^24 digits.
  lemma CompactFields(bits: Bits)
    ensures Exponent(bits) < 0x100 && Mantissa(bits) < 0x80_0000
    ensures bits == Exponent(bits) * 0x100_0000 + (if SignBit(bits) then 0x80_0000 else 0) + Mantissa(bits)
  {
  }
}
