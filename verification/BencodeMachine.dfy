// The decoder of src/Blocxxi/Codec/bencode.cpp in 64-bit arithmetic, where the
// sum of an offset and a length can wrap. It need not end then, so it is given
// fuel; None is what it returns when the fuel is used up.
module BencodeMachine {
  import opened Wrappers
  import opened Bencode

  // ----- strings in 64-bit arithmetic -----

  // The string case as the machine computes it: the bounds check and the new
  // offset are reduced modulo 2^64, and substr stops at the end of the input.
  function DecodeString64(s: string, offset: nat): Decoded<Value>
    requires offset < |s| <= SIZE_MAX
  {
    match Find(s, ':', offset)
    case None => Fail
    case Some(colon) =>
      match ParseSize(s[offset..colon])
      case None => Fail
      case Some(length) =>
        var end := (colon + 1 + length) % (SIZE_MAX + 1);
        if end > |s| then Fail
        else Ok(String(s[colon + 1..if colon + 1 + length <= |s| then colon + 1 + length else |s|]), end)
  }

  // The length field at the offset and the colon behind it.
  ghost predicate LengthAt(s: string, offset: nat, colon: nat, length: nat)
    requires offset < |s|
  {
    Find(s, ':', offset) == Some(colon) && ParseSize(s[offset..colon]) == Some(length)
  }

  // Which lengths the machine accepts, where it goes on, and when that is what
  // the decoder below does: unless the sum wraps, and then it goes back.
  lemma StringArithmetic(s: string, offset: nat, colon: nat, length: nat)
    requires offset < |s| <= SIZE_MAX && LengthAt(s, offset, colon, length)
    ensures DecodeString64(s, offset) == DecodeString(s, offset) <==> colon + 1 + length <= SIZE_MAX
    ensures DecodeString64(s, offset).Ok? <==> length <= |s| - (colon + 1) || colon + 1 + length > SIZE_MAX
    ensures DecodeString64(s, offset).Ok? ==>
              (DecodeString64(s, offset).end > colon <==> length <= |s| - (colon + 1))
  {
  }

  function Pow10(n: nat): nat { if n == 0 then 1 else 10 * Pow10(n - 1) }

  lemma {:induction false} DecimalSize(n: nat, size: nat)
    requires size > 0 && n < Pow10(size) && (size == 1 || n >= Pow10(size - 1))
    ensures |Decimal(n)| == size
    decreases size
  {
    if size > 1 {
      TenFold(size - 1);
      assert n / 10 < Pow10(size - 1) && (size == 2 || n / 10 >= Pow10(size - 2));
      DecimalSize(n / 10, size - 1);
    }
  }

  lemma {:induction false} TenFold(size: nat)
    requires size > 0
    ensures Pow10(size) >= 10
  {
    if size > 1 { TenFold(size - 1); }
  }

  const WRAPPING_LENGTH: nat := 18446744073709551595

  const WRAPPING_INPUT: string := ['l'] + Decimal(WRAPPING_LENGTH) + [':']

  lemma WrappingRead()
    ensures |WRAPPING_INPUT| == 22 && IsDigit(WRAPPING_INPUT[1])
    ensures DecodeString64(WRAPPING_INPUT, 1) == Ok(String(""), 1)
  {
    hide Decimal, Find, ParseDigits;
    var digits, s := Decimal(WRAPPING_LENGTH), WRAPPING_INPUT;
    Twenty();
    DecimalSize(WRAPPING_LENGTH, 20);
    DecimalParses(WRAPPING_LENGTH);
    assert s[1..21] == digits;
    assert forall i :: 1 <= i < 21 ==> s[i] == digits[i - 1];
    FindAfter(s, ':', 1, 21);
    assert s[22..22] == "";
  }

  lemma Twenty()
    ensures Pow10(19) <= WRAPPING_LENGTH < Pow10(20)
  {
    assert Pow10(2) == 100 && Pow10(4) == 10000 && Pow10(6) == 1000000 && Pow10(8) == 100000000;
    assert Pow10(10) == 10000000000 && Pow10(12) == 1000000000000 && Pow10(14) == 100000000000000;
    assert Pow10(16) == 10000000000000000 && Pow10(18) == 1000000000000000000;
    assert Pow10(20) == 100000000000000000000;
  }

  // ----- the decoder -----

  function Value64(s: string, offset: nat, fuel: nat): Option<Decoded<Value>>
    requires |s| <= SIZE_MAX
    decreases fuel, 0
  {
    if offset >= |s| then Some(Fail)
    else if s[offset] == 'i' then Some(DecodeInteger(s, offset))
    else if s[offset] == 'l' then
      if fuel == 0 then None
      else
        match Items64(s, offset + 1, [], fuel - 1)
        case None => None
        case Some(Fail) => Some(Fail)
        case Some(Ok(items, end)) => Some(Ok(List(items), end))
    else if s[offset] == 'd' then
      if fuel == 0 then None
      else
        match Entries64(s, offset + 1, map[], fuel - 1)
        case None => None
        case Some(Fail) => Some(Fail)
        case Some(Ok(entries, end)) => Some(Ok(Dictionary(entries), end))
    else if !IsDigit(s[offset]) then Some(Fail)
    else Some(DecodeString64(s, offset))
  }

  function Items64(s: string, offset: nat, items: seq<Value>, fuel: nat): Option<Decoded<seq<Value>>>
    requires |s| <= SIZE_MAX
    decreases fuel, 1
  {
    if offset >= |s| then Some(Fail)
    else if s[offset] == 'e' then Some(Ok(items, offset + 1))
    else if fuel == 0 then None
    else
      match Value64(s, offset, fuel)
      case None => None
      case Some(Fail) => Some(Fail)
      case Some(Ok(item, end)) => Items64(s, end, items + [item], fuel - 1)
  }

  function Entries64(s: string, offset: nat, entries: map<string, Value>, fuel: nat): Option<Decoded<map<string, Value>>>
    requires |s| <= SIZE_MAX
    decreases fuel, 1
  {
    if offset >= |s| then Some(Fail)
    else if s[offset] == 'e' then Some(Ok(entries, offset + 1))
    else if fuel == 0 then None
    else
      match Value64(s, offset, fuel)
      case None => None
      case Some(Fail) => Some(Fail)
      case Some(Ok(key, middle)) =>
        if !key.String? then Some(Fail)
        else
          match Value64(s, middle, fuel - 1)
          case None => None
          case Some(Fail) => Some(Fail)
          case Some(Ok(value, end)) => Entries64(s, end, Emplace(entries, key.text, value), fuel - 1)
  }

  // ----- when it is the decoder on mathematical integers -----

  // No length field, wherever one may be read, reaches past 2^64 - 1.
  ghost predicate NoWrap(s: string) {
    forall offset: nat, colon: nat, length: nat ::
      offset < |s| && LengthAt(s, offset, colon, length) ==> colon + 1 + length <= SIZE_MAX
  }

  lemma StringAgrees(s: string, offset: nat)
    requires offset < |s| <= SIZE_MAX && NoWrap(s)
    ensures DecodeString64(s, offset) == DecodeString(s, offset)
  {
    var colon := Find(s, ':', offset);
    if colon.Some? {
      var length := ParseSize(s[offset..colon.value]);
      if length.Some? {
        assert LengthAt(s, offset, colon.value, length.value);
        StringArithmetic(s, offset, colon.value, length.value);
      }
    }
  }

  // That is exactly when every string is read as on mathematical integers.
  lemma StringsAgreeIff(s: string)
    requires |s| <= SIZE_MAX
    ensures NoWrap(s) <==> forall offset: nat :: offset < |s| ==> DecodeString64(s, offset) == DecodeString(s, offset)
  {
    hide DecodeString64, DecodeString;
    if NoWrap(s) {
      forall offset: nat | offset < |s| ensures DecodeString64(s, offset) == DecodeString(s, offset) {
        StringAgrees(s, offset);
      }
    } else {
      var offset: nat, colon: nat, length: nat :|
        offset < |s| && LengthAt(s, offset, colon, length) && colon + 1 + length > SIZE_MAX;
      StringArithmetic(s, offset, colon, length);
    }
  }

  // Then the decoder ends, with the fuel of one unit a character, and returns
  // what DecodeValue does.
  lemma {:induction false} ValueAgrees(s: string, offset: nat, fuel: nat)
    requires |s| <= SIZE_MAX && NoWrap(s) && fuel + offset >= |s|
    ensures Value64(s, offset, fuel) == Some(DecodeValue(s, offset))
    decreases fuel, 0
  {
    hide NoWrap, DecodeString64, DecodeString, DecodeInteger;
    if offset < |s| {
      if s[offset] == 'l' {
        ItemsAgree(s, offset + 1, [], fuel - 1);
      } else if s[offset] == 'd' {
        EntriesAgree(s, offset + 1, map[], fuel - 1);
      } else {
        StringAgrees(s, offset);
      }
    }
  }

  lemma {:induction false} ItemsAgree(s: string, offset: nat, items: seq<Value>, fuel: nat)
    requires |s| <= SIZE_MAX && NoWrap(s) && fuel + offset >= |s|
    ensures Items64(s, offset, items, fuel) == Some(DecodeItems(s, offset, items))
    decreases fuel, 1
  {
    hide NoWrap, DecodeValue, Value64;
    if offset < |s| && s[offset] != 'e' {
      ValueAgrees(s, offset, fuel);
      var r := DecodeValue(s, offset);
      if r.Ok? { ItemsAgree(s, r.end, items + [r.value], fuel - 1); }
    }
  }

  lemma {:induction false} EntriesAgree(s: string, offset: nat, entries: map<string, Value>, fuel: nat)
    requires |s| <= SIZE_MAX && NoWrap(s) && fuel + offset >= |s|
    ensures Entries64(s, offset, entries, fuel) == Some(DecodeEntries(s, offset, entries))
    decreases fuel, 1
  {
    hide NoWrap, DecodeValue, Value64;
    if offset < |s| && s[offset] != 'e' {
      ValueAgrees(s, offset, fuel);
      var key := DecodeValue(s, offset);
      if key.Ok? && key.value.String? {
        ValueAgrees(s, key.end, fuel - 1);
        var value := DecodeValue(s, key.end);
        if value.Ok? { EntriesAgree(s, value.end, Emplace(entries, key.value.text, value.value), fuel - 1); }
      }
    }
  }

  // ----- when it does not end -----

  // The item loop on the 22 characters l18446744073709551595: is back where it
  // was after each turn.
  lemma {:induction false} ItemsForever(items: seq<Value>, fuel: nat)
    ensures |WRAPPING_INPUT| == 22 && Items64(WRAPPING_INPUT, 1, items, fuel) == None
    decreases fuel
  {
    hide DecodeString64, WRAPPING_INPUT;
    WrappingRead();
    if fuel > 0 { ItemsForever(items + [String("")], fuel - 1); }
  }

  // So no amount of fuel is enough.
  lemma LoopsForever(fuel: nat)
    ensures |WRAPPING_INPUT| == 22 && Value64(WRAPPING_INPUT, 0, fuel) == None
  {
    assert WRAPPING_INPUT[0] == 'l';
    hide WRAPPING_INPUT;
    if fuel > 0 { ItemsForever([], fuel - 1); } else { WrappingRead(); }
  }
}
