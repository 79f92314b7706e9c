// Which texts the decoder of src/Blocxxi/Codec/bencode.cpp accepts are encodings:
// it also takes numbers with redundant zeros or signs, and keys in any order.
module BencodeCanonical {
  import opened Wrappers
  import opened Slices
  import opened Bencode

  // ----- canonical texts -----

  predicate PlainDigits(t: string) { t != [] && (|t| == 1 || t[0] != '0') }

  // No leading zeros, and no sign on zero.
  predicate PlainInteger(t: string) {
    if t != [] && t[0] == '-' then PlainDigits(t[1..]) && t[1] != '0' else PlainDigits(t)
  }

  // Of the value that stands at the offset. Where none does, nothing is required.
  ghost predicate Canonical(s: string, offset: nat)
    decreases |s| - offset, 0
  {
    DecodeValue(s, offset).Ok? ==>
      if s[offset] == 'i' then PlainInteger(s[offset + 1..DecodeValue(s, offset).end - 1])
      else if s[offset] == 'l' then CanonicalItems(s, offset + 1)
      else if s[offset] == 'd' then CanonicalEntries(s, offset + 1, None)
      else Find(s, ':', offset).Some? && PlainDigits(s[offset..Find(s, ':', offset).value])
  }

  ghost predicate CanonicalItems(s: string, offset: nat)
    decreases |s| - offset, 1
  {
    offset < |s| && s[offset] != 'e' ==>
      var item := DecodeValue(s, offset);
      item.Ok? ==> Canonical(s, offset) && CanonicalItems(s, item.end)
  }

  // Keys strictly ascend, from the last one read.
  ghost predicate CanonicalEntries(s: string, offset: nat, last: Option<string>)
    decreases |s| - offset, 1
  {
    offset < |s| && s[offset] != 'e' ==>
      var key := DecodeValue(s, offset);
      key.Ok? && key.value.String? ==>
        && Canonical(s, offset) && (last.Some? ==> Less(last.value, key.value.text))
        && Canonical(s, key.end)
        && (DecodeValue(s, key.end).Ok? ==> CanonicalEntries(s, DecodeValue(s, key.end).end, Some(key.value.text)))
  }

  // ----- numbers -----

  lemma {:induction false} DecimalPlain(n: nat)
    ensures PlainDigits(Decimal(n)) && (n > 0 ==> Decimal(n)[0] != '0')
  {
    if n >= 10 { DecimalPlain(n / 10); }
  }

  lemma DecimalNext(n: nat, c: char)
    requires n > 0 && IsDigit(c)
    ensures Decimal(10 * n + (c - '0') as nat) == Decimal(n) + [c]
  {
    var d := (c - '0') as nat;
    assert (10 * n + d) / 10 == n && (10 * n + d) % 10 == d;
  }

  lemma ParsedLast(t: string, n: nat)
    requires |t| > 1 && ParseDigits(t) == Some(n)
    ensures
      var front, c := t[..|t| - 1], t[|t| - 1];
      IsDigit(c) && ParseDigits(front).Some? && n == 10 * ParseDigits(front).value + (c - '0') as nat
  {
  }

  lemma {:induction false} PlainIsDecimal(t: string, n: nat)
    requires ParseDigits(t) == Some(n) && PlainDigits(t)
    ensures Decimal(n) == t && (t[0] != '0' ==> n > 0)
    decreases |t|
  {
    if |t| > 1 {
      hide Decimal, ParseDigits, IsDigit;
      var front := t[..|t| - 1];
      ParsedLast(t, n);
      PlainIsDecimal(front, ParseDigits(front).value);
      DecimalNext(ParseDigits(front).value, t[|t| - 1]);
      assert t == front + [t[|t| - 1]];
    }
  }

  lemma PlainIntegerIff(t: string, i: int)
    requires ParseInt64(t) == Some(i)
    ensures PlainInteger(t) <==> t == SignedDecimal(i)
  {
    hide Decimal, ParseDigits;
    if t != [] && t[0] == '-' {
      assert t == ['-'] + t[1..];
      if PlainInteger(t) { PlainIsDecimal(t[1..], -i); }
    } else if PlainInteger(t) {
      PlainIsDecimal(t, i);
    }
    DecimalPlain(if i < 0 then -i else i);
    if t == SignedDecimal(i) && i < 0 { assert t[1..] == Decimal(-i); }
  }

  // ----- encodings are canonical -----

  lemma StringCanonical(text: string, s: string, offset: nat)
    requires |text| <= SIZE_MAX && At(s, offset, EncodeString(text))
    ensures Canonical(s, offset)
  {
    hide Decimal;
    KeyRoundTrip(text, s, offset);
    StringRoundTrip(text, s, offset);
    var digits := Decimal(|text|);
    AtConcat(s, offset, digits + [':'], text);
    AtConcat(s, offset, digits, [':']);
    var colon := offset + |digits|;
    assert s[offset..colon] == digits && s[colon..colon + 1] == [':'] && s[colon] == ':';
    forall k | offset <= k < colon ensures s[k] != ':' { assert s[k] == digits[k - offset]; }
    FindAfter(s, ':', offset, colon);
    DecimalPlain(|text|);
  }

  lemma IntegerCanonical(i: int, s: string, offset: nat)
    requires Representable(Integer(i)) && At(s, offset, ['i'] + SignedDecimal(i) + ['e'])
    ensures Canonical(s, offset)
  {
    hide SignedDecimal, ParseInt64;
    IntegerRoundTrip(i, s, offset);
    var d := SignedDecimal(i);
    Framed(s, offset, 'i', d);
    assert s[offset + 1..offset + 1 + |d|] == d;
    SignedDecimalParses(i);
    PlainIntegerIff(d, i);
  }

  lemma {:induction false} ItemsPrefix(v: Value, n: nat, m: nat)
    requires v.List? && n <= m <= |v.items|
    ensures EncodeItems(v, n) <= EncodeItems(v, m)
    decreases m
  {
    if n < m { ItemsPrefix(v, n, m - 1); }
  }

  lemma {:induction false} EntriesPrefix(v: Value, keys: seq<string>, n: nat)
    requires v.Dictionary? && (forall k :: k in keys ==> k in v.entries) && n <= |keys|
    ensures EncodeEntries(v, keys[..n]) <= EncodeEntries(v, keys)
    decreases |keys|
  {
    hide EncodeEntries, EncodeString, Encode;
    if n < |keys| {
      var m := |keys| - 1;
      EntriesPrefix(v, keys[..m], n);
      EntriesNext(v, keys[..m], keys[m]);
      assert keys[..m][..n] == keys[..n] && keys == keys[..m] + [keys[m]];
    } else {
      assert keys[..n] == keys;
    }
  }

  lemma ItemsNext(v: Value, n: nat)
    requires v.List? && n < |v.items|
    ensures EncodeItems(v, n + 1) == EncodeItems(v, n) + Encode(v.items[n])
  {
  }

  lemma AtPrefix(s: string, offset: nat, a: string, b: string)
    requires At(s, offset, b) && a <= b
    ensures At(s, offset, a)
  {
    assert b == a + b[|a|..];
    AtConcat(s, offset, a, b[|a|..]);
  }

  lemma {:induction false} EncodedIsCanonical(v: Value, s: string, offset: nat)
    requires Representable(v) && At(s, offset, Encode(v))
    ensures Canonical(s, offset)
    decreases v, 1, 0
  {
    hide At, Encode, EncodeItems, EncodeEntries, EncodeString, SignedDecimal, CanonicalItems, CanonicalEntries;
    EncodeCases(v);
    match v
    case Integer(i) => IntegerCanonical(i, s, offset);
    case String(text) => StringCanonical(text, s, offset);
    case List(items) =>
      var body := EncodeItems(v, |items|);
      Framed(s, offset, 'l', body);
      EncodedItems(v, 0, s, offset + 1);
      NothingEncoded(v);
    case Dictionary(entries) =>
      var keys := SortedKeys(entries.Keys);
      var body := EncodeEntries(v, keys);
      Framed(s, offset, 'd', body);
      EncodedEntries(v, 0, s, offset + 1);
      EntriesNone(v);
      assert keys[..0] == [];
  }

  lemma NothingEncoded(v: Value)
    requires v.List?
    ensures EncodeItems(v, 0) == []
  {
  }

  lemma {:induction false} EncodedItems(v: Value, n: nat, s: string, start: nat)
    requires v.List? && Representable(v) && n <= |v.items| && At(s, start, EncodeItems(v, |v.items|))
    requires start + |EncodeItems(v, |v.items|)| < |s| && s[start + |EncodeItems(v, |v.items|)|] == 'e'
    ensures CanonicalItems(s, start + |EncodeItems(v, n)|)
    decreases v, 0, |v.items| - n
  {
    hide At, Encode, Canonical, EncodeItems;
    if n < |v.items| {
      var item, at := v.items[n], start + |EncodeItems(v, n)|;
      assert Representable(item);
      hide Representable;
      ItemsNext(v, n);
      ItemsPrefix(v, n + 1, |v.items|);
      AtPrefix(s, start, EncodeItems(v, n + 1), EncodeItems(v, |v.items|));
      AtConcat(s, start, EncodeItems(v, n), Encode(item));
      RoundTrip(item, s, at);
      EncodedIsCanonical(item, s, at);
      EncodedItems(v, n + 1, s, start);
    }
  }

  lemma {:induction false} EncodedEntries(v: Value, n: nat, s: string, start: nat)
    requires v.Dictionary? && Representable(v) && n <= |SortedKeys(v.entries.Keys)|
    requires At(s, start, EncodeEntries(v, SortedKeys(v.entries.Keys)))
    requires start + |EncodeEntries(v, SortedKeys(v.entries.Keys))| < |s|
    requires s[start + |EncodeEntries(v, SortedKeys(v.entries.Keys))|] == 'e'
    ensures
      var keys := SortedKeys(v.entries.Keys);
      CanonicalEntries(s, start + |EncodeEntries(v, keys[..n])|, if n == 0 then None else Some(keys[n - 1]))
    decreases v, 0, |SortedKeys(v.entries.Keys)| - n
  {
    hide At, Encode, Canonical, EncodeEntries, EncodeString, SortedKeys, Less, Representable;
    var keys := SortedKeys(v.entries.Keys);
    assert keys[..|keys|] == keys;
    if n < |keys| {
      var key, at := keys[n], start + |EncodeEntries(v, keys[..n])|;
      EntryPlaces(v, keys, n, s, start);
      KeyRoundTrip(key, s, at);
      StringCanonical(key, s, at);
      var middle := at + |EncodeString(key)|;
      RoundTrip(v.entries[key], s, middle);
      EncodedIsCanonical(v.entries[key], s, middle);
      if n > 0 { SortedKeysAscend(v.entries.Keys); }
      EncodedEntries(v, n + 1, s, start);
    }
  }

  // Where the n-th entry stands.
  lemma EntryPlaces(v: Value, keys: seq<string>, n: nat, s: string, start: nat)
    requires v.Dictionary? && Representable(v) && (forall k :: k in keys ==> k in v.entries) && n < |keys|
    requires At(s, start, EncodeEntries(v, keys))
    ensures keys[n] in v.entries && |keys[n]| <= SIZE_MAX && Representable(v.entries[keys[n]])
    ensures
      var at := start + |EncodeEntries(v, keys[..n])|;
      var middle := at + |EncodeString(keys[n])|;
      && At(s, at, EncodeString(keys[n])) && At(s, middle, Encode(v.entries[keys[n]]))
      && start + |EncodeEntries(v, keys[..n + 1])| == middle + |Encode(v.entries[keys[n]])|
  {
    hide At, Encode, EncodeEntries, EncodeString;
    var key := keys[n];
    assert key in v.entries;
    var text, value := EncodeString(key), Encode(v.entries[key]);
    assert keys[..n + 1] == keys[..n] + [key];
    EntriesNext(v, keys[..n], key);
    EntriesPrefix(v, keys, n + 1);
    AtPrefix(s, start, EncodeEntries(v, keys[..n + 1]), EncodeEntries(v, keys));
    AtConcat(s, start, EncodeEntries(v, keys[..n]), text + value);
    AtConcat(s, start + |EncodeEntries(v, keys[..n])|, text, value);
  }

  // ----- canonical texts are encodings -----

  lemma IntegerEncoded(s: string, offset: nat)
    requires offset < |s| && s[offset] == 'i' && DecodeInteger(s, offset).Ok? && Canonical(s, offset)
    ensures s[offset..DecodeInteger(s, offset).end] == Encode(DecodeInteger(s, offset).value)
  {
    hide SignedDecimal, ParseInt64;
    var r := DecodeInteger(s, offset);
    var digits := s[offset + 1..r.end - 1];
    PlainIntegerIff(digits, r.value.integer);
    assert s[offset..r.end] == ['i'] + digits + ['e'];
  }

  // The parts of a decoded string.
  lemma StringParts(s: string, offset: nat) returns (colon: nat)
    requires offset < |s| && IsDigit(s[offset]) && DecodeString(s, offset).Ok? && Canonical(s, offset)
    ensures
      var r := DecodeString(s, offset);
      && offset <= colon < r.end && s[colon] == ':' && r.value == String(s[colon + 1..r.end])
      && ParseDigits(s[offset..colon]) == Some(r.end - (colon + 1)) && PlainDigits(s[offset..colon])
  {
    hide ParseDigits, Find, PlainDigits;
    colon := Find(s, ':', offset).value;
  }

  lemma StringEncoded(s: string, offset: nat)
    requires offset < |s| && IsDigit(s[offset]) && DecodeString(s, offset).Ok? && Canonical(s, offset)
    ensures s[offset..DecodeString(s, offset).end] == EncodeString(DecodeString(s, offset).value.text)
  {
    hide Decimal, ParseDigits, DecodeString, Canonical, PlainDigits, IsDigit;
    var r := DecodeString(s, offset);
    var colon := StringParts(s, offset);
    var digits := s[offset..colon];
    PlainIsDecimal(digits, r.end - (colon + 1));
    assert s[offset..r.end] == digits + [':'] + s[colon + 1..r.end];
  }

  lemma Enclosed(s: string, offset: nat, end: nat, body: string)
    requires offset < end <= |s| && [] + s[offset + 1..end] == body + ['e']
    ensures s[offset..end] == [s[offset]] + body + ['e']
  {
    assert s[offset + 1..end] == [] + s[offset + 1..end];
    assert s[offset..end] == [s[offset]] + s[offset + 1..end];
    assert [s[offset]] + (body + ['e']) == [s[offset]] + body + ['e'];
  }

  lemma Joined(s: string, a: nat, b: nat, c: nat)
    requires a <= b <= c <= |s|
    ensures s[a..c] == s[a..b] + s[b..c]
  {
  }

  lemma {:induction false} CanonicalIsEncoded(s: string, offset: nat)
    requires DecodeValue(s, offset).Ok? && Canonical(s, offset)
    ensures s[offset..DecodeValue(s, offset).end] == Encode(DecodeValue(s, offset).value)
    decreases |s| - offset, 0
  {
    hide Encode, EncodeItems, EncodeEntries, EncodeString, CanonicalItems, CanonicalEntries, DecodeItems, DecodeEntries;
    var r := DecodeValue(s, offset);
    EncodeCases(r.value);
    if s[offset] == 'i' {
      IntegerEncoded(s, offset);
    } else if s[offset] == 'l' {
      CanonicalItemsEncoded(s, offset + 1, []);
      NothingEncoded(r.value);
      Enclosed(s, offset, r.end, EncodeItems(r.value, |r.value.items|));
    } else if s[offset] == 'd' {
      CanonicalEntriesEncoded(s, offset + 1, map[], []);
      EntriesNone(r.value);
      Enclosed(s, offset, r.end, EncodeEntries(r.value, SortedKeys(r.value.entries.Keys)));
    } else {
      StringEncoded(s, offset);
    }
  }

  lemma {:induction false} CanonicalItemsEncoded(s: string, offset: nat, items: seq<Value>)
    requires DecodeItems(s, offset, items).Ok? && CanonicalItems(s, offset)
    ensures
      var r := DecodeItems(s, offset, items);
      var v := List(r.value);
      items <= r.value && EncodeItems(v, |items|) + s[offset..r.end] == EncodeItems(v, |r.value|) + ['e']
    decreases |s| - offset, 1
  {
    hide Encode, DecodeValue, Canonical, EncodeItems;
    var r := DecodeItems(s, offset, items);
    if s[offset] != 'e' {
      var item := DecodeValue(s, offset);
      CanonicalIsEncoded(s, offset);
      CanonicalItemsEncoded(s, item.end, items + [item.value]);
      var v := List(r.value);
      assert v.items[|items|] == item.value;
      ItemsNext(v, |items|);
      Joined(s, offset, item.end, r.end);
      assert EncodeItems(v, |items|) + s[offset..r.end] == EncodeItems(v, |items| + 1) + s[item.end..r.end];
    } else {
      assert s[offset..r.end] == ['e'];
    }
  }

  function LastOf(read: seq<string>): Option<string> { if read == [] then None else Some(read[|read| - 1]) }

  lemma AscendingNext(read: seq<string>, key: string)
    requires Ascending(read) && (read != [] ==> Less(read[|read| - 1], key))
    ensures Ascending(read + [key]) && key !in read
  {
    hide Less;
    forall i | 0 <= i < |read| ensures Less(read[i], key) {
      if i < |read| - 1 { LessTransitive(read[i], read[|read| - 1], key); }
    }
    LessIrreflexive(key);
  }

  lemma {:induction false} CanonicalEntriesEncoded(s: string, offset: nat, entries: map<string, Value>, read: seq<string>)
    requires DecodeEntries(s, offset, entries).Ok? && CanonicalEntries(s, offset, LastOf(read))
    requires Ascending(read) && forall k :: k in read <==> k in entries
    ensures
      var r := DecodeEntries(s, offset, entries);
      var v := Dictionary(r.value);
      && (forall k :: k in entries ==> k in r.value && r.value[k] == entries[k])
      && EncodeEntries(v, read) + s[offset..r.end] == EncodeEntries(v, SortedKeys(r.value.Keys)) + ['e']
    decreases |s| - offset, 1
  {
    hide Encode, EncodeString, EncodeEntries, DecodeValue, Canonical, SortedKeys, Less, Ascending;
    var r := DecodeEntries(s, offset, entries);
    if s[offset] != 'e' {
      var key := DecodeValue(s, offset);
      var name := key.value.text;
      var value := DecodeValue(s, key.end);
      CanonicalIsEncoded(s, offset);
      CanonicalIsEncoded(s, key.end);
      AscendingNext(read, name);
      var more := Emplace(entries, name, value.value);
      assert LastOf(read + [name]) == Some(name);
      CanonicalEntriesEncoded(s, value.end, more, read + [name]);
      EntryJoined(s, offset, key.end, value.end, r.end, Dictionary(r.value), read, name);
    } else {
      SortedUnique(read, entries.Keys);
      assert s[offset..r.end] == ['e'];
    }
  }

  lemma EntryJoined(s: string, offset: nat, middle: nat, next: nat, end: nat, v: Value, read: seq<string>, name: string)
    requires offset <= middle <= next <= end <= |s|
    requires v.Dictionary? && (forall k :: k in read ==> k in v.entries) && name in v.entries
    requires s[offset..middle] == Encode(String(name)) && s[middle..next] == Encode(v.entries[name])
    ensures EncodeEntries(v, read) + s[offset..end] == EncodeEntries(v, read + [name]) + s[next..end]
  {
    hide EncodeEntries, EncodeString, Encode;
    EncodeCases(String(name));
    EntriesNext(v, read, name);
    Joined(s, offset, middle, end);
    Joined(s, middle, next, end);
    assert EncodeEntries(v, read) + (s[offset..middle] + (s[middle..next] + s[next..end]))
        == EncodeEntries(v, read) + (s[offset..middle] + s[middle..next]) + s[next..end];
  }

  // ----- both ways -----

  lemma {:induction false} DecodedRepresentable(s: string, offset: nat)
    requires DecodeValue(s, offset).Ok?
    ensures Representable(DecodeValue(s, offset).value)
    decreases |s| - offset, 0
  {
    hide DecodeItems, DecodeEntries;
    if s[offset] == 'l' {
      DecodedItems(s, offset + 1, []);
    } else if s[offset] == 'd' {
      DecodedEntries(s, offset + 1, map[]);
    }
  }

  lemma {:induction false} DecodedItems(s: string, offset: nat, items: seq<Value>)
    requires DecodeItems(s, offset, items).Ok? && Representable(List(items))
    ensures Representable(List(DecodeItems(s, offset, items).value))
    decreases |s| - offset, 1
  {
    hide DecodeValue;
    if s[offset] != 'e' {
      DecodedRepresentable(s, offset);
      var item := DecodeValue(s, offset);
      DecodedItems(s, item.end, items + [item.value]);
    }
  }

  lemma {:induction false} DecodedEntries(s: string, offset: nat, entries: map<string, Value>)
    requires DecodeEntries(s, offset, entries).Ok? && Representable(Dictionary(entries))
    ensures Representable(Dictionary(DecodeEntries(s, offset, entries).value))
    decreases |s| - offset, 1
  {
    hide DecodeValue;
    if s[offset] != 'e' {
      DecodedRepresentable(s, offset);
      var key := DecodeValue(s, offset);
      DecodedRepresentable(s, key.end);
      var value := DecodeValue(s, key.end);
      hide Emplace;
      Adds(entries, key.value.text, value.value);
      DecodedEntries(s, value.end, Emplace(entries, key.value.text, value.value));
    }
  }

  // An accepted text is the encoding of its value if and only if its numbers
  // have no redundant zeros or signs and its keys strictly ascend.
  lemma EncodingIff(s: string, v: Value)
    requires Decode(s) == Some(v)
    ensures Encode(v) == s <==> Canonical(s, 0)
  {
    hide DecodeValue, Encode, Canonical;
    assert s[0..|s|] == s;
    DecodedRepresentable(s, 0);
    if Canonical(s, 0) { CanonicalIsEncoded(s, 0); }
    if Encode(v) == s { EncodedIsCanonical(v, s, 0); }
  }

  // It happens: the decoder takes a negative zero.
  lemma NegativeZero()
    ensures Decode("i-0e") == Some(Integer(0)) && Encode(Integer(0)) == "i0e"
  {
    var s := "i-0e";
    FindAfter(s, 'e', 1, 3);
    assert s[1..3] == "-0" && s[1..3][1..] == "0";
    assert ParseDigits("0") == Some(0);
  }
}
