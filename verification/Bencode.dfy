// Model of src/Blocxxi/Codec/bencode.cpp.
//
// A std::string is a `string`, a std::vector a `seq`, and the ordered
// std::map<std::string, Value> a `map` whose iteration order is `SortedKeys`.
// Exceptions are the `Fail` results. Offsets and lengths are added as
// mathematical integers; BencodeMachine has the 64-bit form.
module Bencode {
  import opened Wrappers
  import opened Slices

  datatype Value =
    | Integer(integer: int)
    | String(text: string)
    | List(items: seq<Value>)
    | Dictionary(entries: map<string, Value>)

  const INT64_MIN: int := -0x8000_0000_0000_0000
  const INT64_MAX: int := 0x7FFF_FFFF_FFFF_FFFF
  const SIZE_MAX: int := 0xFFFF_FFFF_FFFF_FFFF

  // A value a C++ program can hold: 64-bit integers, and strings whose size is a size_t.
  ghost predicate Representable(v: Value) {
    match v
    case Integer(i) => INT64_MIN <= i <= INT64_MAX
    case String(s) => |s| <= SIZE_MAX
    case List(items) => forall i :: 0 <= i < |items| ==> Representable(items[i])
    case Dictionary(entries) => forall k :: k in entries ==> |k| <= SIZE_MAX && Representable(entries[k])
  }

  lemma Text(s: string)
    requires |s| <= SIZE_MAX
    ensures Representable(String(s))
  {
  }

  lemma Time(i: int)
    requires INT64_MIN <= i <= INT64_MAX
    ensures Representable(Integer(i))
  {
  }

  lemma Empty()
    ensures Representable(Dictionary(map[]))
  {
  }

  lemma Adds(d: map<string, Value>, key: string, value: Value)
    requires Representable(Dictionary(d)) && |key| <= SIZE_MAX && Representable(value)
    ensures Representable(Dictionary(d[key := value]))
    ensures Representable(Dictionary(Emplace(d, key, value)))
  {
  }

  // ----- decimal numbers -----

  function Digit(d: nat): char requires d < 10 { '0' + d as char }

  predicate IsDigit(c: char) { '0' <= c <= '9' }

  // std::to_string on an unsigned number
  function Decimal(n: nat): (s: string)
    ensures s != [] && forall i :: 0 <= i < |s| ==> IsDigit(s[i])
  {
    if n < 10 then [Digit(n)] else Decimal(n / 10) + [Digit(n % 10)]
  }

  function SignedDecimal(i: int): string {
    if i < 0 then ['-'] + Decimal(-i) else Decimal(i)
  }

  // std::from_chars accepting the whole input: digits only.
  function ParseDigits(s: string): (r: Option<nat>) {
    if s == [] then None
    else if !IsDigit(s[|s| - 1]) then None
    else
      var d := (s[|s| - 1] - '0') as nat;
      if |s| == 1 then Some(d)
      else match ParseDigits(s[..|s| - 1])
           case None => None
           case Some(n) => Some(10 * n + d)
  }

  // ParseNumber<std::size_t>
  function ParseSize(s: string): (r: Option<nat>) {
    match ParseDigits(s)
    case None => None
    case Some(n) => if n <= SIZE_MAX then Some(n) else None
  }

  // ParseNumber<std::int64_t>
  function ParseInt64(s: string): (r: Option<int>) {
    var negative := s != [] && s[0] == '-';
    match ParseDigits(if negative then s[1..] else s)
    case None => None
    case Some(n) =>
      var i: int := if negative then 0 - n else n;
      if INT64_MIN <= i <= INT64_MAX then Some(i) else None
  }

  lemma {:induction false} DecimalParses(n: nat)
    ensures ParseDigits(Decimal(n)) == Some(n)
  {
    var s := Decimal(n);
    if n >= 10 {
      DecimalParses(n / 10);
      assert s[..|s| - 1] == Decimal(n / 10) && s[|s| - 1] == Digit(n % 10);
      assert 10 * (n / 10) + n % 10 == n;
    }
  }

  lemma {:induction false} DecimalInjective(m: nat, n: nat)
    requires Decimal(m) == Decimal(n)
    ensures m == n
  {
    DecimalParses(m);
    DecimalParses(n);
  }

  lemma SignedDecimalParses(i: int)
    requires INT64_MIN <= i <= INT64_MAX
    ensures ParseInt64(SignedDecimal(i)) == Some(i)
  {
    DecimalParses(if i < 0 then -i else i);
    if i < 0 {
      assert SignedDecimal(i)[1..] == Decimal(-i);
    }
  }

  // ----- key order -----

  // operator< on std::string
  predicate Less(a: string, b: string) {
    b != [] && (a == [] || a[0] < b[0] || (a[0] == b[0] && Less(a[1..], b[1..])))
  }

  lemma {:induction false} LessTotal(a: string, b: string)
    ensures a == b || Less(a, b) || Less(b, a)
  {
    if a != [] && b != [] && a[0] == b[0] {
      LessTotal(a[1..], b[1..]);
      if a[1..] == b[1..] { assert a == [a[0]] + a[1..] && b == [b[0]] + b[1..]; }
    }
  }

  lemma {:induction false} LessTransitive(a: string, b: string, c: string)
    requires Less(a, b) && Less(b, c)
    ensures Less(a, c)
  {
    if a != [] && a[0] == b[0] == c[0] { LessTransitive(a[1..], b[1..], c[1..]); }
  }

  lemma {:induction false} LessIrreflexive(a: string)
    ensures !Less(a, a)
  {
    if a != [] { LessIrreflexive(a[1..]); }
  }

  ghost predicate IsFirst(k: string, keys: set<string>) {
    k in keys && forall j :: j in keys && j != k ==> Less(k, j)
  }

  lemma {:induction false} FirstExists(keys: set<string>) returns (k: string)
    requires keys != {}
    ensures IsFirst(k, keys)
    decreases |keys|
  {
    k :| k in keys;
    if keys != {k} {
      assert |keys - {k}| < |keys|;
      var m := FirstExists(keys - {k});
      LessTotal(k, m);
      if Less(k, m) {
        forall j | j in keys && j != k ensures Less(k, j) {
          if j != m { LessTransitive(k, m, j); }
        }
      } else {
        k := m;
      }
    }
  }

  // The order in which std::map yields its keys.
  ghost function SortedKeys(keys: set<string>): (s: seq<string>)
    ensures forall k :: k in keys <==> k in s
    decreases |keys|
  {
    if keys == {} then []
    else
      assert exists k :: IsFirst(k, keys) by { var k := FirstExists(keys); }
      var k :| IsFirst(k, keys);
      [k] + SortedKeys(keys - {k})
  }

  lemma {:induction false} SortedKeysAscend(keys: set<string>)
    ensures |SortedKeys(keys)| == |keys|
    ensures forall i, j :: 0 <= i < j < |SortedKeys(keys)| ==> Less(SortedKeys(keys)[i], SortedKeys(keys)[j])
    decreases |keys|
  {
    var s := SortedKeys(keys);
    if keys != {} {
      assert s == [s[0]] + SortedKeys(keys - {s[0]});
      SortedKeysAscend(keys - {s[0]});
    }
  }

  // ----- encoding -----

  function EncodeString(s: string): string { Decimal(|s|) + [':'] + s }

  ghost function Encode(v: Value): string
    decreases v, 1, 0
  {
    match v
    case Integer(i) => ['i'] + SignedDecimal(i) + ['e']
    case String(s) => EncodeString(s)
    case List(items) => ['l'] + EncodeItems(v, |items|) + ['e']
    case Dictionary(entries) => ['d'] + EncodeEntries(v, SortedKeys(entries.Keys)) + ['e']
  }

  // The first n items of a list.
  ghost function EncodeItems(v: Value, n: nat): string
    requires v.List? && n <= |v.items|
    decreases v, 0, n
  {
    if n == 0 then [] else EncodeItems(v, n - 1) + Encode(v.items[n - 1])
  }

  // The entries of a dictionary at the given keys, in that order.
  ghost function EncodeEntries(v: Value, keys: seq<string>): string
    requires v.Dictionary? && (forall k :: k in keys ==> k in v.entries)
    decreases v, 0, |keys|
  {
    if keys == [] then []
    else
      var n := |keys| - 1;
      EncodeEntries(v, keys[..n]) + (EncodeString(keys[n]) + Encode(v.entries[keys[n]]))
  }

  // ----- decoding -----

  datatype Decoded<+T> = Ok(value: T, end: nat) | Fail

  // std::string_view::find
  function Find(s: string, c: char, from: nat): (r: Option<nat>)
    ensures r.Some? ==> from <= r.value < |s| && s[r.value] == c
    decreases |s| - from
  {
    if from >= |s| then None else if s[from] == c then Some(from) else Find(s, c, from + 1)
  }

  function DecodeInteger(s: string, offset: nat): (r: Decoded<Value>)
    requires offset < |s|
    ensures r.Ok? ==> offset < r.end <= |s|
  {
    match Find(s, 'e', offset + 1)
    case None => Fail
    case Some(end) =>
      match ParseInt64(s[offset + 1..end])
      case None => Fail
      case Some(i) => Ok(Integer(i), end + 1)
  }

  function DecodeString(s: string, offset: nat): (r: Decoded<Value>)
    requires offset < |s|
    ensures r.Ok? ==> offset < r.end <= |s| && r.value.String?
  {
    match Find(s, ':', offset)
    case None => Fail
    case Some(colon) =>
      match ParseSize(s[offset..colon])
      case None => Fail
      case Some(length) =>
        if colon + 1 + length > |s| then Fail
        else Ok(String(s[colon + 1..colon + 1 + length]), colon + 1 + length)
  }

  // Every successful call advances the offset and stays inside the input; that
  // is also what makes the recursion terminate.
  function DecodeValue(s: string, offset: nat): (r: Decoded<Value>)
    ensures r.Ok? ==> offset < r.end <= |s|
    decreases |s| - offset, 0
  {
    if offset >= |s| then Fail
    else if s[offset] == 'i' then DecodeInteger(s, offset)
    else if s[offset] == 'l' then
      match DecodeItems(s, offset + 1, [])
      case Fail => Fail
      case Ok(items, end) => Ok(List(items), end)
    else if s[offset] == 'd' then
      match DecodeEntries(s, offset + 1, map[])
      case Fail => Fail
      case Ok(entries, end) => Ok(Dictionary(entries), end)
    else if !IsDigit(s[offset]) then Fail
    else DecodeString(s, offset)
  }

  // The rest of a list, after the items already read.
  function DecodeItems(s: string, offset: nat, items: seq<Value>): (r: Decoded<seq<Value>>)
    ensures r.Ok? ==> offset < r.end <= |s|
    decreases |s| - offset, 1
  {
    if offset >= |s| then Fail
    else if s[offset] == 'e' then Ok(items, offset + 1)
    else
      match DecodeValue(s, offset)
      case Fail => Fail
      case Ok(item, end) => DecodeItems(s, end, items + [item])
  }

  // The rest of a dictionary. `emplace` keeps the first value given for a key.
  function DecodeEntries(s: string, offset: nat, entries: map<string, Value>): (r: Decoded<map<string, Value>>)
    ensures r.Ok? ==> offset < r.end <= |s|
    decreases |s| - offset, 1
  {
    if offset >= |s| then Fail
    else if s[offset] == 'e' then Ok(entries, offset + 1)
    else
      match DecodeValue(s, offset)
      case Fail => Fail
      case Ok(key, middle) =>
        if !key.String? then Fail
        else
          match DecodeValue(s, middle)
          case Fail => Fail
          case Ok(value, end) => DecodeEntries(s, end, Emplace(entries, key.text, value))
  }

  function Emplace(entries: map<string, Value>, key: string, value: Value): map<string, Value> {
    if key in entries then entries else entries[key := value]
  }

  function Decode(s: string): Option<Value> {
    match DecodeValue(s, 0)
    case Fail => None
    case Ok(value, end) => if end != |s| then None else Some(value)
  }

  // Of two entries with one key the first stays.
  lemma {:induction false} FirstKeyWins(s: string, offset: nat, entries: map<string, Value>)
    requires DecodeEntries(s, offset, entries).Ok?
    ensures forall k :: k in entries ==>
              k in DecodeEntries(s, offset, entries).value && DecodeEntries(s, offset, entries).value[k] == entries[k]
    decreases |s| - offset
  {
    hide DecodeValue;
    if s[offset] != 'e' {
      var key := DecodeValue(s, offset);
      var value := DecodeValue(s, key.end);
      FirstKeyWins(s, value.end, Emplace(entries, key.value.text, value.value));
    }
  }

  // ----- round trip -----

  lemma {:induction false} FindAfter(s: string, c: char, from: nat, until: nat)
    requires from <= until < |s| && s[until] == c && (forall i :: from <= i < until ==> s[i] != c)
    ensures Find(s, c, from) == Some(until)
    decreases until - from
  {
    if from < until { FindAfter(s, c, from + 1, until); }
  }

  lemma IntegerRoundTrip(i: int, s: string, offset: nat)
    requires INT64_MIN <= i <= INT64_MAX && At(s, offset, ['i'] + SignedDecimal(i) + ['e'])
    ensures DecodeInteger(s, offset) == Ok(Integer(i), offset + |SignedDecimal(i)| + 2)
  {
    var d := SignedDecimal(i);
    AtConcat(s, offset, ['i'] + d, ['e']);
    AtConcat(s, offset, ['i'], d);
    var end := offset + 1 + |d|;
    assert s[offset + 1..end] == d;
    assert s[end..end + 1] == ['e'] && s[end] == 'e';
    forall k | offset + 1 <= k < end ensures s[k] != 'e' {
      assert s[k] == d[k - offset - 1];
    }
    FindAfter(s, 'e', offset + 1, end);
    SignedDecimalParses(i);
  }

  lemma StringRoundTrip(text: string, s: string, offset: nat)
    requires |text| <= SIZE_MAX && At(s, offset, EncodeString(text))
    ensures DecodeString(s, offset) == Ok(String(text), offset + |EncodeString(text)|)
    ensures offset < |s| && IsDigit(s[offset])
  {
    var d := Decimal(|text|);
    AtConcat(s, offset, d + [':'], text);
    AtConcat(s, offset, d, [':']);
    var colon := offset + |d|;
    assert s[offset..colon] == d;
    assert s[colon..colon + 1] == [':'] && s[colon] == ':';
    forall k | offset <= k < colon ensures IsDigit(s[k]) {
      assert s[k] == d[k - offset];
    }
    FindAfter(s, ':', offset, colon);
    DecimalParses(|text|);
  }

  lemma ItemsStep(s: string, offset: nat, items: seq<Value>, item: Value, end: nat)
    requires offset < |s| && s[offset] != 'e' && DecodeValue(s, offset) == Ok(item, end)
    ensures DecodeItems(s, offset, items) == DecodeItems(s, end, items + [item])
  {
    hide DecodeValue;
  }

  lemma EntriesStep(s: string, offset: nat, entries: map<string, Value>, key: string, middle: nat, value: Value, end: nat)
    requires offset < |s| && s[offset] != 'e' && DecodeValue(s, offset) == Ok(String(key), middle)
    requires DecodeValue(s, middle) == Ok(value, end)
    ensures DecodeEntries(s, offset, entries) == DecodeEntries(s, end, Emplace(entries, key, value))
  {
    hide DecodeValue;
  }

  // An opening character, a body and a closing 'e'.
  lemma Framed(s: string, offset: nat, open: char, body: string)
    requires At(s, offset, [open] + body + ['e'])
    ensures offset < |s| && s[offset] == open && At(s, offset + 1, body)
    ensures offset + 1 + |body| < |s| && s[offset + 1 + |body|] == 'e'
  {
    AtConcat(s, offset, [open] + body, ['e']);
    AtConcat(s, offset, [open], body);
    assert s[offset..offset + 1] == [open];
    var end := offset + 1 + |body|;
    assert s[end..end + 1] == ['e'];
  }

  lemma ItemsEnd(s: string, offset: nat, items: seq<Value>)
    requires offset < |s| && s[offset] == 'e'
    ensures DecodeItems(s, offset, items) == Ok(items, offset + 1)
  {
  }

  lemma EntriesEnd(s: string, offset: nat, entries: map<string, Value>)
    requires offset < |s| && s[offset] == 'e'
    ensures DecodeEntries(s, offset, entries) == Ok(entries, offset + 1)
  {
  }

  // Decoding at the place where an encoding stands, whatever surrounds it,
  // gives the value back and stops exactly behind the encoding.
  lemma {:induction false} RoundTrip(v: Value, s: string, offset: nat)
    requires Representable(v) && At(s, offset, Encode(v))
    ensures DecodeValue(s, offset) == Ok(v, offset + |Encode(v)|)
    ensures offset < |s| && s[offset] != 'e'
    decreases v, 2, 0
  {
    hide At, SortedKeys, DecodeItems, DecodeEntries, EncodeItems, EncodeEntries, DecodeString, DecodeInteger, SignedDecimal, Decimal;
    match v
    case Integer(i) =>
      IntegerRoundTrip(i, s, offset);
      Framed(s, offset, 'i', SignedDecimal(i));
    case String(text) =>
      StringRoundTrip(text, s, offset);
    case List(items) =>
      Framed(s, offset, 'l', EncodeItems(v, |items|));
      ListRoundTrip(v, s, offset + 1);
    case Dictionary(entries) =>
      Framed(s, offset, 'd', EncodeEntries(v, SortedKeys(entries.Keys)));
      DictionaryRoundTrip(v, s, offset + 1);
  }

  lemma {:induction false} ListRoundTrip(v: Value, s: string, start: nat)
    requires v.List? && Representable(v) && At(s, start, EncodeItems(v, |v.items|))
    requires start + |EncodeItems(v, |v.items|)| < |s| && s[start + |EncodeItems(v, |v.items|)|] == 'e'
    ensures DecodeItems(s, start, []) == Ok(v.items, start + |EncodeItems(v, |v.items|)| + 1)
    decreases v, 1, 0
  {
    hide At, DecodeItems, EncodeItems;
    ItemsRoundTrip(v, |v.items|, s, start);
    assert v.items[..|v.items|] == v.items;
    ItemsEnd(s, start + |EncodeItems(v, |v.items|)|, v.items);
  }

  lemma {:induction false} ItemsRoundTrip(v: Value, n: nat, s: string, start: nat)
    requires v.List? && Representable(v) && n <= |v.items| && At(s, start, EncodeItems(v, n))
    ensures DecodeItems(s, start, []) == DecodeItems(s, start + |EncodeItems(v, n)|, v.items[..n])
    decreases v, 0, n
  {
    hide At, DecodeItems, DecodeValue, Encode;
    if n > 0 {
      var before, item := EncodeItems(v, n - 1), v.items[n - 1];
      assert EncodeItems(v, n) == before + Encode(item);
      AtConcat(s, start, before, Encode(item));
      ItemsRoundTrip(v, n - 1, s, start);
      RoundTrip(item, s, start + |before|);
      ItemsStep(s, start + |before|, v.items[..n - 1], item, start + |before| + |Encode(item)|);
      assert v.items[..n] == v.items[..n - 1] + [item];
    }
  }

  lemma {:induction false} DictionaryRoundTrip(v: Value, s: string, start: nat)
    requires v.Dictionary? && Representable(v)
    requires At(s, start, EncodeEntries(v, SortedKeys(v.entries.Keys)))
    requires start + |EncodeEntries(v, SortedKeys(v.entries.Keys))| < |s|
    requires s[start + |EncodeEntries(v, SortedKeys(v.entries.Keys))|] == 'e'
    ensures DecodeEntries(s, start, map[]) == Ok(v.entries, start + |EncodeEntries(v, SortedKeys(v.entries.Keys))| + 1)
    decreases v, 1, 0
  {
    hide At, DecodeEntries, EncodeEntries, SortedKeys;
    var keys := SortedKeys(v.entries.Keys);
    DistinctKeys(v.entries.Keys);
    EntriesRoundTrip(v, keys, s, start);
    assert Only(v.entries, keys) == v.entries;
    EntriesEnd(s, start + |EncodeEntries(v, keys)|, v.entries);
  }

  // The dictionary restricted to some of its keys.
  ghost function Only(entries: map<string, Value>, keys: seq<string>): map<string, Value>
    requires forall k :: k in keys ==> k in entries
  {
    map k | k in keys :: entries[k]
  }

  ghost predicate Distinct(keys: seq<string>) {
    forall i, j :: 0 <= i < j < |keys| ==> keys[i] != keys[j]
  }

  lemma DistinctKeys(keys: set<string>)
    ensures Distinct(SortedKeys(keys))
  {
    var s := SortedKeys(keys);
    SortedKeysAscend(keys);
    forall i, j | 0 <= i < j < |s| ensures s[i] != s[j] {
      LessIrreflexive(s[i]);
    }
  }

  lemma {:induction false} EntriesRoundTrip(v: Value, keys: seq<string>, s: string, start: nat)
    requires v.Dictionary? && Representable(v) && (forall k :: k in keys ==> k in v.entries) && Distinct(keys)
    requires At(s, start, EncodeEntries(v, keys))
    ensures DecodeEntries(s, start, map[]) == DecodeEntries(s, start + |EncodeEntries(v, keys)|, Only(v.entries, keys))
    decreases v, 0, |keys|
  {
    hide At, DecodeEntries, DecodeValue, Encode, EncodeString, DecodeString, Only, Emplace;
    if keys == [] {
      OnlyNone(v.entries);
    } else {
      var n := |keys| - 1;
      var before := EncodeEntries(v, keys[..n]);
      var entry := EncodeString(keys[n]) + Encode(v.entries[keys[n]]);
      assert EncodeEntries(v, keys) == before + entry;
      AtConcat(s, start, before, entry);
      EntriesRoundTrip(v, keys[..n], s, start);
      EntryRoundTrip(v, keys[n], s, start + |before|, Only(v.entries, keys[..n]));
      OnlyNext(v.entries, keys);
    }
  }

  lemma {:induction false} EntryRoundTrip(v: Value, key: string, s: string, at: nat, entries: map<string, Value>)
    requires v.Dictionary? && Representable(v) && key in v.entries
    requires At(s, at, EncodeString(key) + Encode(v.entries[key]))
    ensures DecodeEntries(s, at, entries)
         == DecodeEntries(s, at + |EncodeString(key) + Encode(v.entries[key])|, Emplace(entries, key, v.entries[key]))
    decreases v, 0, 0
  {
    hide At, DecodeEntries, DecodeValue, Encode, EncodeString, DecodeString, Emplace;
    var name, item := EncodeString(key), Encode(v.entries[key]);
    AtConcat(s, at, name, item);
    KeyRoundTrip(key, s, at);
    RoundTrip(v.entries[key], s, at + |name|);
    EntriesStep(s, at, entries, key, at + |name|, v.entries[key], at + |name| + |item|);
  }

  lemma OnlyNone(entries: map<string, Value>)
    ensures Only(entries, []) == map[]
  {
  }

  lemma OnlyNext(entries: map<string, Value>, keys: seq<string>)
    requires (forall k :: k in keys ==> k in entries) && Distinct(keys) && keys != []
    ensures var n := |keys| - 1;
            Only(entries, keys) == Emplace(Only(entries, keys[..n]), keys[n], entries[keys[n]])
  {
    var n := |keys| - 1;
    assert keys == keys[..n] + [keys[n]];
  }

  lemma KeyRoundTrip(key: string, s: string, offset: nat)
    requires |key| <= SIZE_MAX && At(s, offset, EncodeString(key))
    ensures DecodeValue(s, offset) == Ok(String(key), offset + |EncodeString(key)|)
    ensures offset < |s| && s[offset] != 'e'
  {
    hide At, EncodeString, DecodeString;
    StringRoundTrip(key, s, offset);
  }

  lemma DecodeEncode(v: Value)
    requires Representable(v)
    ensures Decode(Encode(v)) == Some(v)
  {
    assert Encode(v)[0..|Encode(v)|] == Encode(v);
    RoundTrip(v, Encode(v), 0);
  }

  // No encoding is a proper prefix of another, and equal encodings come from equal values.
  lemma EncodePrefixFree(v: Value, w: Value)
    requires Representable(v) && Representable(w) && Encode(v) <= Encode(w)
    ensures v == w
  {
    RoundTrip(v, Encode(w), 0);
    assert Encode(w)[0..|Encode(w)|] == Encode(w);
    RoundTrip(w, Encode(w), 0);
  }

  // ----- the loops -----

  // AppendEncoded appends to the output it is given; DecodeValueAt moves an
  // offset. Both loop over the children of lists and dictionaries.
  method AppendEncoded(v: Value, out: string) returns (r: string)
    ensures r == out + Encode(v)
    decreases v
  {
    hide Encode, EncodeString, SignedDecimal, SortedKeys;
    match v
    case Integer(i) =>
      r := out + ['i'] + SignedDecimal(i) + ['e'];
      assert Encode(v) == ['i'] + SignedDecimal(i) + ['e'] by { EncodeCases(v); }
    case String(text) =>
      r := out + EncodeString(text);
      assert Encode(v) == EncodeString(text) by { EncodeCases(v); }
    case List(items) =>
      r := out + ['l'];
      for n := 0 to |items|
        invariant r == out + ['l'] + EncodeItems(v, n)
      {
        r := AppendEncoded(items[n], r);
        assert r == out + ['l'] + (EncodeItems(v, n) + Encode(items[n]));
      }
      r := r + ['e'];
      assert Encode(v) == ['l'] + EncodeItems(v, |items|) + ['e'] by { EncodeCases(v); }
    case Dictionary(entries) =>
      r := AppendEntries(v, out + ['d']);
      r := r + ['e'];
      assert Encode(v) == ['d'] + EncodeEntries(v, SortedKeys(entries.Keys)) + ['e'] by { EncodeCases(v); }
  }

  lemma EncodeCases(v: Value)
    ensures v.Integer? ==> Encode(v) == ['i'] + SignedDecimal(v.integer) + ['e']
    ensures v.String? ==> Encode(v) == EncodeString(v.text)
    ensures v.List? ==> Encode(v) == ['l'] + EncodeItems(v, |v.items|) + ['e']
    ensures v.Dictionary? ==> Encode(v) == ['d'] + EncodeEntries(v, SortedKeys(v.entries.Keys)) + ['e']
  {
  }

  method AppendEntries(v: Value, out: string) returns (r: string)
    requires v.Dictionary?
    ensures r == out + EncodeEntries(v, SortedKeys(v.entries.Keys))
    decreases v, 0
  {
    hide Encode, EncodeString, SortedKeys, EncodeEntries;
    var keys := InOrder(v.entries.Keys);
    EntriesNone(v);
    r := out;
    for n := 0 to |keys|
      invariant r == out + EncodeEntries(v, keys[..n])
    {
      EntriesNext(v, keys[..n], keys[n]);
      assert keys[..n] + [keys[n]] == keys[..n + 1];
      r := r + EncodeString(keys[n]);
      r := AppendEncoded(v.entries[keys[n]], r);
      assert r == out + (EncodeEntries(v, keys[..n]) + (EncodeString(keys[n]) + Encode(v.entries[keys[n]])));
    }
    assert keys[..|keys|] == keys;
  }

  // The keys in the order std::map iterates over them.
  method InOrder(keys: set<string>) returns (s: seq<string>)
    ensures s == SortedKeys(keys)
  {
    hide SortedKeys, IsFirst;
    s := [];
    var rest := keys;
    while rest != {}
      invariant s + SortedKeys(rest) == SortedKeys(keys)
      decreases |rest|
    {
      var key := First(rest);
      SortedFirst(rest, key);
      assert s + ([key] + SortedKeys(rest - {key})) == s + [key] + SortedKeys(rest - {key});
      s := s + [key];
      rest := rest - {key};
    }
    SortedNone();
    assert s + [] == s;
  }

  lemma EntriesNone(v: Value)
    requires v.Dictionary?
    ensures EncodeEntries(v, []) == []
  {
  }

  lemma EntriesNext(v: Value, keys: seq<string>, key: string)
    requires v.Dictionary? && (forall k :: k in keys ==> k in v.entries) && key in v.entries
    ensures EncodeEntries(v, keys + [key]) == EncodeEntries(v, keys) + (EncodeString(key) + Encode(v.entries[key]))
  {
    hide Encode, EncodeString;
    assert (keys + [key])[..|keys|] == keys;
  }

  lemma SortedNone()
    ensures SortedKeys({}) == []
  {
  }

  lemma SortedFirst(keys: set<string>, key: string)
    requires IsFirst(key, keys)
    ensures SortedKeys(keys) == [key] + SortedKeys(keys - {key})
  {
    var s := SortedKeys(keys);
    assert IsFirst(s[0], keys);
    if s[0] != key {
      LessTransitive(key, s[0], key);
      LessIrreflexive(key);
      assert false;
    }
  }

  ghost predicate Ascending(keys: seq<string>) {
    forall i, j :: 0 <= i < j < |keys| ==> Less(keys[i], keys[j])
  }

  lemma {:induction false} SortedUnique(read: seq<string>, keys: set<string>)
    requires Ascending(read) && forall k :: k in read <==> k in keys
    ensures read == SortedKeys(keys)
    decreases |read|
  {
    hide SortedKeys, Less;
    if read == [] {
      assert keys == {};
      SortedNone();
    } else {
      var first := read[0];
      FirstOfAscending(read, keys);
      SortedFirst(keys, first);
      SortedUnique(read[1..], keys - {first});
    }
  }

  lemma FirstOfAscending(read: seq<string>, keys: set<string>)
    requires read != [] && Ascending(read) && forall k :: k in read <==> k in keys
    ensures IsFirst(read[0], keys) && Ascending(read[1..])
    ensures forall k :: k in read[1..] <==> k in keys - {read[0]}
  {
    hide Less;
    forall k | k in keys && k != read[0] ensures Less(read[0], k) {
      var i :| 0 <= i < |read| && read[i] == k;
    }
    forall i | 0 < i < |read| ensures read[i] != read[0] {
      LessIrreflexive(read[0]);
    }
    assert forall k :: k in read[1..] <==> k in read && k != read[0] by {
      assert read == [read[0]] + read[1..];
      assert forall i :: 0 <= i < |read| - 1 ==> read[1..][i] == read[i + 1];
    }
  }

  // The smallest key of a non-empty dictionary.
  method First(keys: set<string>) returns (first: string)
    requires keys != {}
    ensures IsFirst(first, keys) && first in keys
  {
    first :| first in keys;
    var rest := keys - {first};
    while rest != {}
      invariant rest < keys && first in keys - rest
      invariant forall j :: j in keys - rest && j != first ==> Less(first, j)
      decreases rest
    {
      var k :| k in rest;
      LessTotal(first, k);
      if Less(k, first) {
        forall j | j in keys - rest ensures Less(k, j) {
          if j != first { LessTransitive(k, first, j); }
        }
        first := k;
      }
      rest := rest - {k};
    }
  }

  method DecodeValueAt(s: string, offset: nat) returns (r: Decoded<Value>)
    ensures r == DecodeValue(s, offset)
    decreases |s| - offset
  {
    hide DecodeString, DecodeInteger, DecodeItems, DecodeEntries;
    if offset >= |s| {
      return Fail;
    }
    var token := s[offset];
    if token == 'i' {
      return DecodeInteger(s, offset);
    }
    if token == 'l' {
      var items: seq<Value> := [];
      var at := offset + 1;
      while at < |s| && s[at] != 'e'
        invariant offset < at
        invariant DecodeItems(s, offset + 1, []) == DecodeItems(s, at, items)
        decreases |s| - at
      {
        ItemsAt(s, at, items);
        var item := DecodeValueAt(s, at);
        if item.Fail? {
          return Fail;
        }
        items := items + [item.value];
        at := item.end;
      }
      ItemsAt(s, at, items);
      if at >= |s| {
        return Fail;
      }
      return Ok(List(items), at + 1);
    }
    if token == 'd' {
      var entries: map<string, Value> := map[];
      var at := offset + 1;
      while at < |s| && s[at] != 'e'
        invariant offset < at
        invariant DecodeEntries(s, offset + 1, map[]) == DecodeEntries(s, at, entries)
        decreases |s| - at
      {
        EntriesAt(s, at, entries);
        var key := DecodeValueAt(s, at);
        if key.Fail? || !key.value.String? {
          return Fail;
        }
        var item := DecodeValueAt(s, key.end);
        if item.Fail? {
          return Fail;
        }
        entries := Emplace(entries, key.value.text, item.value);
        at := item.end;
      }
      EntriesAt(s, at, entries);
      if at >= |s| {
        return Fail;
      }
      return Ok(Dictionary(entries), at + 1);
    }
    if !IsDigit(token) {
      return Fail;
    }
    return DecodeString(s, offset);
  }

  // One unfolding of the two loops.
  lemma ItemsAt(s: string, at: nat, items: seq<Value>)
    ensures at >= |s| ==> DecodeItems(s, at, items) == Fail
    ensures at < |s| && s[at] == 'e' ==> DecodeItems(s, at, items) == Ok(items, at + 1)
    ensures at < |s| && s[at] != 'e' ==>
              var item := DecodeValue(s, at);
              DecodeItems(s, at, items) == if item.Fail? then Fail else DecodeItems(s, item.end, items + [item.value])
  {
  }

  lemma EntriesAt(s: string, at: nat, entries: map<string, Value>)
    ensures at >= |s| ==> DecodeEntries(s, at, entries) == Fail
    ensures at < |s| && s[at] == 'e' ==> DecodeEntries(s, at, entries) == Ok(entries, at + 1)
    ensures at < |s| && s[at] != 'e' ==>
              var key := DecodeValue(s, at);
              if key.Fail? || !key.value.String? then DecodeEntries(s, at, entries) == Fail
              else
                var item := DecodeValue(s, key.end);
                DecodeEntries(s, at, entries) ==
                if item.Fail? then Fail else DecodeEntries(s, item.end, Emplace(entries, key.value.text, item.value))
  {
  }
}
