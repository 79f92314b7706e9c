// Model of the text form in src/Nova/Base/Uuid.cpp: 8-4-4-4-12 lower-case hex.
module UuidText {
  import opened Wrappers
  import opened Bytes
  import opened Uuid

  const LENGTH: nat := 36

  // ----- reference: where each character stands -----

  predicate IsHyphen(i: nat) { i == 8 || i == 13 || i == 18 || i == 23 }

  // Hyphens before position i.
  function Hyphens(i: nat): nat {
    if i <= 8 then 0 else if i <= 13 then 1 else if i <= 18 then 2 else if i <= 23 then 3 else 4
  }

  // Position of the first digit of byte k.
  function Pos(k: nat): nat {
    2 * k + if k < 4 then 0 else if k < 6 then 1 else if k < 8 then 2 else if k < 10 then 3 else 4
  }

  function HexDigit(v: Byte): char
    requires v < 16
  {
    if v < 10 then '0' + v as char else 'a' + (v - 10) as char
  }

  predicate IsLowerHex(c: char) { '0' <= c <= '9' || 'a' <= c <= 'f' }

  function CharAt(u: seq<Byte>, i: nat): char
    requires |u| == 16 && i < LENGTH
  {
    if IsHyphen(i) then '-'
    else
      var j := i - Hyphens(i);
      if j % 2 == 0 then HexDigit(u[j / 2] / 16) else HexDigit(u[j / 2] % 16)
  }

  // The canonical text, character by character.
  function Text(u: seq<Byte>): (s: string)
    requires |u| == 16
    ensures |s| == LENGTH && forall i :: 0 <= i < LENGTH ==> s[i] == CharAt(u, i)
  {
    seq(LENGTH, i requires 0 <= i < LENGTH => CharAt(u, i))
  }

  ghost predicate Canonical(s: string) {
    |s| == LENGTH && forall i :: 0 <= i < LENGTH ==> if IsHyphen(i) then s[i] == '-' else IsLowerHex(s[i])
  }

  // ParseHexNibble
  function Nibble(c: char): (v: Option<Byte>)
    ensures v.Some? ==> v.value < 16
  {
    if '0' <= c <= '9' then Some((c - '0') as int)
    else if 'a' <= c <= 'f' then Some((c - 'a') as int + 10)
    else if 'A' <= c <= 'F' then Some((c - 'A') as int + 10)
    else None
  }

  function Digit(c: char): (v: Byte)
    requires IsLowerHex(c)
    ensures v < 16
  {
    Nibble(c).value
  }

  lemma DigitInverse(v: Byte, c: char)
    ensures v < 16 ==> IsLowerHex(HexDigit(v)) && Digit(HexDigit(v)) == v
    ensures IsLowerHex(c) ==> HexDigit(Digit(c)) == c
  {
  }

  lemma DigitPosition(i: nat, k: nat)
    requires i < LENGTH && !IsHyphen(i) && i == 2 * k + Hyphens(i)
    ensures k < 16 && i == Pos(k) && i + 1 < LENGTH && !IsHyphen(i + 1) && Hyphens(i + 1) == Hyphens(i + 2) == Hyphens(i)
  {
  }

  lemma PositionOf(k: nat)
    requires k < 16
    ensures
      var i := Pos(k);
      && i + 1 < LENGTH && !IsHyphen(i) && !IsHyphen(i + 1)
      && i - Hyphens(i) == 2 * k && i + 1 - Hyphens(i + 1) == 2 * k + 1
  {
  }

  // The bytes a canonical text spells.
  ghost function BytesOf(s: string): (u: seq<Byte>)
    requires Canonical(s)
    ensures |u| == 16
  {
    seq(16, k requires 0 <= k < 16 => ByteSpelled(s, k))
  }

  ghost function ByteSpelled(s: string, k: nat): Byte
    requires Canonical(s) && k < 16
  {
    PositionOf(k);
    16 * Digit(s[Pos(k)]) + Digit(s[Pos(k) + 1])
  }

  // ----- Text and BytesOf are inverse -----

  lemma DigitPlaces(u: seq<Byte>, i: nat)
    requires |u| == 16 && i < LENGTH && !IsHyphen(i)
    ensures IsLowerHex(CharAt(u, i))
  {
    hide HexDigit, IsLowerHex;
    var j := i - Hyphens(i);
    DigitInverse(u[j / 2] / 16, '0');
    DigitInverse(u[j / 2] % 16, '0');
  }

  lemma BytePlaces(u: seq<Byte>, k: nat)
    requires |u| == 16 && k < 16 && Canonical(Text(u))
    ensures ByteSpelled(Text(u), k) == u[k]
  {
    PositionOf(k);
    hide HexDigit, IsLowerHex, Digit, Pos, Hyphens, IsHyphen;
    DigitInverse(u[k] / 16, '0');
    DigitInverse(u[k] % 16, '0');
  }

  lemma TextCanonical(u: seq<Byte>)
    requires |u| == 16
    ensures Canonical(Text(u)) && BytesOf(Text(u)) == u
  {
    hide CharAt, IsLowerHex, ByteSpelled, IsHyphen;
    forall i: nat | i < LENGTH ensures if IsHyphen(i) then Text(u)[i] == '-' else IsLowerHex(Text(u)[i]) {
      if IsHyphen(i) { HyphenPlaces(u, i); } else { DigitPlaces(u, i); }
    }
    assert Canonical(Text(u));
    forall k: nat | k < 16 ensures ByteSpelled(Text(u), k) == u[k] {
      BytePlaces(u, k);
    }
  }

  lemma HyphenPlaces(u: seq<Byte>, i: nat)
    requires |u| == 16 && i < LENGTH && IsHyphen(i)
    ensures CharAt(u, i) == '-'
  {
  }

  lemma CanonicalText(s: string)
    requires Canonical(s)
    ensures Text(BytesOf(s)) == s
  {
    var u := BytesOf(s);
    forall i: nat | i < LENGTH ensures CharAt(u, i) == s[i] {
      if !IsHyphen(i) { SpelledAt(s, i); }
    }
  }

  // Every position but the hyphens is the first or the second digit of a byte.
  lemma PlaceOf(i: nat)
    requires i < LENGTH && !IsHyphen(i)
    ensures
      var j := i - Hyphens(i);
      j / 2 < 16 && i == Pos(j / 2) + j % 2
  {
  }

  lemma TwoDigits(high: char, low: char)
    requires IsLowerHex(high) && IsLowerHex(low)
    ensures
      var b := 16 * Digit(high) + Digit(low);
      b / 16 < 16 && HexDigit(b / 16) == high && HexDigit(b % 16) == low
  {
    hide Digit, HexDigit, IsLowerHex;
    DigitInverse(0, high);
    DigitInverse(0, low);
    assert (16 * Digit(high) + Digit(low)) / 16 == Digit(high);
  }

  lemma SpelledAt(s: string, i: nat)
    requires Canonical(s) && i < LENGTH && !IsHyphen(i)
    ensures CharAt(BytesOf(s), i) == s[i]
  {
    var j := i - Hyphens(i);
    PlaceOf(i);
    PositionOf(j / 2);
    var high, low := s[Pos(j / 2)], s[Pos(j / 2) + 1];
    assert IsLowerHex(high) && IsLowerHex(low);
    assert BytesOf(s)[j / 2] == 16 * Digit(high) + Digit(low);
    hide Canonical, Pos, Hyphens, IsHyphen, Digit, HexDigit, IsLowerHex, BytesOf, ByteSpelled;
    TwoDigits(high, low);
  }

  // ----- operations -----

  method ToString(u: seq<Byte>) returns (text: string)
    requires |u| == 16
    ensures text == Text(u)
  {
    text := "";
    var k := 0;
    while k < 16
      invariant 0 <= k <= 16 && |text| == if k == 0 then 0 else Pos(k - 1) + 2
      invariant text == Text(u)[..|text|]
    {
      if k == 4 || k == 6 || k == 8 || k == 10 { text := text + "-"; }
      PositionOf(k);
      assert |text| == Pos(k);
      assert text == Text(u)[..Pos(k)];
      text := text + [HexDigit(u[k] / 16), HexDigit(u[k] % 16)];
      k := k + 1;
    }
  }

  method FromBytes(u: seq<Byte>) returns (r: Option<seq<Byte>>)
    requires |u| == 16
    ensures r == if IsValidV7(u) then Some(u) else None
  {
    if !IsValidV7(u) { return None; }
    return Some(u);
  }

  // HasCanonicalHyphens and HasOnlyLowercaseHexDigits
  predicate Plausible(s: string) {
    && |s| == LENGTH
    && s[8] == '-' && s[13] == '-' && s[18] == '-' && s[23] == '-'
    && forall i :: 0 <= i < |s| ==> s[i] == '-' || IsLowerHex(s[i])
  }

  // h hyphens and the bytes so far, with the cursor at i. More hyphens than the
  // layout has show in h and never go away.
  ghost predicate Scanned(s: string, i: nat, h: nat, bytes: seq<Byte>)
    requires Plausible(s)
  {
    && i <= LENGTH && i == 2 * |bytes| + h && Hyphens(i) <= h
    && (Canonical(s) ==> h == Hyphens(i))
    && (h == Hyphens(i) ==> forall p :: 0 <= p < i && s[p] == '-' ==> IsHyphen(p))
    && (Canonical(s) ==> |bytes| <= 16 && bytes == BytesOf(s)[..|bytes|])
  }

  lemma ScanHyphen(s: string, i: nat, h: nat, bytes: seq<Byte>)
    requires Plausible(s) && Scanned(s, i, h, bytes) && i < LENGTH && s[i] == '-'
    ensures Scanned(s, i + 1, h + 1, bytes)
  {
    hide BytesOf;
  }

  lemma ScanStops(s: string, i: nat, h: nat, bytes: seq<Byte>)
    requires Plausible(s) && Scanned(s, i, h, bytes) && i < LENGTH && s[i] != '-'
    ensures Canonical(s) ==> i + 1 < LENGTH && s[i + 1] != '-' && |bytes| < 16 && i == Pos(|bytes|)
  {
    hide BytesOf;
    if Canonical(s) { DigitPosition(i, |bytes|); }
  }

  lemma ScanByte(s: string, i: nat, h: nat, bytes: seq<Byte>)
    requires Plausible(s) && Scanned(s, i, h, bytes) && i + 1 < LENGTH && s[i] != '-' && s[i + 1] != '-'
    ensures Scanned(s, i + 2, h, bytes + [16 * Digit(s[i]) + Digit(s[i + 1])])
  {
    ScanStops(s, i, h, bytes);
    assert Hyphens(i + 2) == Hyphens(i);
    var b := 16 * Digit(s[i]) + Digit(s[i + 1]);
    if Canonical(s) {
      assert BytesOf(s)[|bytes|] == ByteSpelled(s, |bytes|) == b;
    }
  }

  lemma ScanEnd(s: string, h: nat, bytes: seq<Byte>)
    requires Plausible(s) && Scanned(s, LENGTH, h, bytes)
    ensures Canonical(s) <==> |bytes| == 16
    ensures Canonical(s) ==> bytes == BytesOf(s)
  {
  }

  // Accepts exactly the canonical texts of valid version 7 UUIDs.
  method FromString(s: string) returns (r: Option<seq<Byte>>)
    ensures r == if Canonical(s) && IsValidV7(BytesOf(s)) then Some(BytesOf(s)) else None
  {
    if !Plausible(s) { return None; }
    hide Scanned, Canonical, BytesOf;
    var bytes: seq<Byte> := [];
    ghost var h := 0;
    var i := 0;
    while i < |s|
      invariant 0 <= i <= |s| && Scanned(s, i, h, bytes)
    {
      if s[i] == '-' {
        ScanHyphen(s, i, h, bytes);
        i, h := i + 1, h + 1;
        continue;
      }
      ScanStops(s, i, h, bytes);
      if i + 1 >= |s| || s[i + 1] == '-' { return None; }
      var high, low := Nibble(s[i]), Nibble(s[i + 1]);
      if high.None? || low.None? { return None; }
      if |bytes| >= 16 { return None; }
      ScanByte(s, i, h, bytes);
      bytes := bytes + [16 * high.value + low.value];
      i := i + 2;
    }
    ScanEnd(s, h, bytes);
    if |bytes| != 16 { return None; }
    r := FromBytes(bytes);
  }

  // ----- round trips -----

  // Every text accepted is the text of the UUID returned, and the text of every
  // valid version 7 UUID is accepted.
  lemma AcceptedTexts(s: string, u: seq<Byte>)
    requires |u| == 16
    ensures s == Text(u) <==> Canonical(s) && BytesOf(s) == u
  {
    hide Text, BytesOf, Canonical;
    TextCanonical(u);
    if Canonical(s) { CanonicalText(s); }
  }

  // ----- known texts -----

  lemma KnownDigits(v: Byte)
    requires v < 16
    ensures HexDigit(v) == "0123456789abcdef"[v]
  {
  }

  // The example of appendix A.6 of RFC 9562.
  lemma KnownText()
    ensures Text([0x01, 0x7F, 0x22, 0xE2, 0x79, 0xB0, 0x7C, 0xC3, 0x98, 0xC4, 0xDC, 0x0C, 0x0C, 0x07, 0x39, 0x8F])
         == "017f22e2-79b0-7cc3-98c4-dc0c0c07398f"
  {
    var u := [0x01, 0x7F, 0x22, 0xE2, 0x79, 0xB0, 0x7C, 0xC3, 0x98, 0xC4, 0xDC, 0x0C, 0x0C, 0x07, 0x39, 0x8F];
    var s := "017f22e2-79b0-7cc3-98c4-dc0c0c07398f";
    hide CharAt;
    forall i: nat | i < LENGTH ensures CharAt(u, i) == s[i] {
      if i < 18 { KnownFront(u, s, i); } else { KnownBack(u, s, i); }
    }
  }

  lemma KnownFront(u: seq<Byte>, s: string, i: nat)
    requires |u| == 16 && |s| == LENGTH && i < 18
    requires u[..8] == [0x01, 0x7F, 0x22, 0xE2, 0x79, 0xB0, 0x7C, 0xC3] && s[..18] == "017f22e2-79b0-7cc3"
    ensures CharAt(u, i) == s[i]
  {
    var bytes, text := u[..8], s[..18];
    assert s[i] == text[i] && forall k :: 0 <= k < 8 ==> u[k] == bytes[k];
  }

  lemma KnownBack(u: seq<Byte>, s: string, i: nat)
    requires |u| == 16 && |s| == LENGTH && 18 <= i < LENGTH
    requires u[8..] == [0x98, 0xC4, 0xDC, 0x0C, 0x0C, 0x07, 0x39, 0x8F] && s[18..] == "-98c4-dc0c0c07398f"
    ensures CharAt(u, i) == s[i]
  {
    var bytes, text := u[8..], s[18..];
    assert s[i] == text[i - 18] && forall k :: 0 <= k < 8 ==> u[8 + k] == bytes[k];
  }
}
