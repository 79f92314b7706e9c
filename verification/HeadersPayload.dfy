// Model of ParseHeadersPayload in src/Blocxxi/Bitcoin/adapter.cpp, for any
// 32-byte hash function in place of double SHA-256, and of what header
// acceptance then demands of the headers on the wire.
module HeadersPayload {
  import opened Bytes
  import opened Slices
  import opened CompactSize
  import opened Merkle
  import opened Target
  import opened HeaderSync

  // ----- the wire -----

  // The fields of an 80-byte header; hashes as they stand on the wire.
  datatype WireHeader = WireHeader(
    version: Word32, previous: Hash32, merkleRoot: Hash32, timestamp: Word32, bits: Bits, nonce: Word32)

  function Times(h: WireHeader): (s: seq<Byte>)
    ensures |s| == 12
  {
    LittleEndian(h.timestamp, 4) + (LittleEndian(h.bits, 4) + LittleEndian(h.nonce, 4))
  }

  function HeaderBytes(h: WireHeader): (s: seq<Byte>)
    ensures |s| == 80
  {
    LittleEndian(h.version, 4) + (h.previous + (h.merkleRoot + Times(h)))
  }

  // Every header is followed by a transaction count of zero.
  function HeadersBytes(headers: seq<WireHeader>): seq<Byte> {
    if headers == [] then [] else (HeaderBytes(headers[0]) + Compact(0)) + HeadersBytes(headers[1..])
  }

  function PayloadBytes(headers: seq<WireHeader>): seq<Byte>
    requires |headers| < 0x1_0000_0000_0000_0000
  {
    Compact(|headers|) + HeadersBytes(headers)
  }

  // Display order of a hash.
  function Reversed(s: seq<Byte>): (r: seq<Byte>)
    ensures |r| == |s|
  {
    if s == [] then [] else Reversed(s[1..]) + [s[0]]
  }

  // The header a wire header stands for, `index` places behind the locator.
  function HeaderOf(hash: HashFunction, h: WireHeader, locator: Word32, index: nat): Header {
    Header((locator + index + 1) % U32, Reversed(hash(HeaderBytes(h))), Reversed(h.previous), Reversed(h.merkleRoot),
           h.version, h.timestamp, h.bits, h.nonce)
  }

  function HeadersOf(hash: HashFunction, headers: seq<WireHeader>, locator: Word32, index: nat): (r: seq<Header>)
    ensures |r| == |headers|
    ensures forall i :: 0 <= i < |headers| ==> r[i] == HeaderOf(hash, headers[i], locator, index + i)
  {
    if headers == [] then []
    else [HeaderOf(hash, headers[0], locator, index)] + HeadersOf(hash, headers[1..], locator, index + 1)
  }

  // The layout of a header, on the numbers of the Bitcoin genesis block.
  lemma KnownHeader(previous: Hash32, merkleRoot: Hash32)
    ensures
      var h := WireHeader(1, previous, merkleRoot, 1231006505, 0x1d00ffff, 2083236893);
      HeaderBytes(h) == [0x01, 0x00, 0x00, 0x00] + previous + merkleRoot
                        + [0x29, 0xab, 0x5f, 0x49, 0xff, 0xff, 0x00, 0x1d, 0x1d, 0xac, 0x2b, 0x7c]
  {
    hide LittleEndian;
    KnownWord(1, 0x01, 0x00, 0x00, 0x00);
    KnownWord(1231006505, 0x29, 0xab, 0x5f, 0x49);
    KnownWord(0x1d00ffff, 0xff, 0xff, 0x00, 0x1d);
    KnownWord(2083236893, 0x1d, 0xac, 0x2b, 0x7c);
  }

  lemma KnownWord(v: Word32, a: Byte, b: Byte, c: Byte, d: Byte)
    requires v == a + 0x100 * b + 0x1_0000 * c + 0x100_0000 * d
    ensures LittleEndian(v, 4) == [a, b, c, d]
  {
    hide LittleEndian;
    FourBytes(v, a + 0x100 * b, c + 0x100 * d);
    TwoBytes(a + 0x100 * b, a, b);
    TwoBytes(c + 0x100 * d, c, d);
  }

  // ----- the parser -----

  datatype Parsed = Parsed(ok: bool, headers: seq<Header>)

  function Extract(hash: HashFunction, s: seq<Byte>, locator: Word32, index: nat): Header
    requires |s| == 80
  {
    LittleNumberBound(s[..4]);
    LittleNumberBound(s[68..72]);
    LittleNumberBound(s[72..76]);
    LittleNumberBound(s[76..]);
    Widths();
    Header((locator + index % U32 + 1) % U32, Reversed(hash(s)), Reversed(s[4..36]), Reversed(s[36..68]),
           LittleNumber(s[..4]), LittleNumber(s[68..72]), LittleNumber(s[72..76]), LittleNumber(s[76..]))
  }

  // From header `index` on; the headers before a failure stay in the output.
  function ParseFrom(hash: HashFunction, s: seq<Byte>, offset: nat, locator: Word32, index: nat, count: nat, done: seq<Header>): Parsed
    requires index <= count
    decreases count - index
  {
    if index == count then Parsed(true, done)
    else if offset + 80 > |s| then Parsed(false, done)
    else
      var transactions := ReadCompact(s, offset + 80);
      if transactions.None? || transactions.value.value != 0 then Parsed(false, done)
      else ParseFrom(hash, s, transactions.value.end, locator, index + 1, count,
                     done + [Extract(hash, s[offset..offset + 80], locator, index)])
  }

  function Parse(hash: HashFunction, s: seq<Byte>, locator: Word32, headers: seq<Header>): Parsed {
    var count := ReadCompact(s, 0);
    if count.None? || count.value.value == 0 then Parsed(false, headers)
    else ParseFrom(hash, s, count.value.end, locator, 0, count.value.value, headers)
  }

  function Hashes(headers: seq<Header>): (r: seq<seq<Byte>>)
    ensures |r| == |headers|
  {
    seq(|headers|, i requires 0 <= i < |headers| => headers[i].hash)
  }

  // The second output lists the hashes of the headers appended.
  method ParseHeadersPayload(hash: HashFunction, s: seq<Byte>, locator: Word32, given: seq<Header>, givenHashes: seq<seq<Byte>>)
    returns (ok: bool, headers: seq<Header>, hashes: seq<seq<Byte>>)
    ensures Parsed(ok, headers) == Parse(hash, s, locator, given)
    ensures given <= headers && hashes == givenHashes + Hashes(headers[|given|..])
  {
    hide Extract, ReadCompact;
    headers, hashes := given, givenHashes;
    assert headers[|given|..] == [];
    var count := ReadCompactSize(s, 0);
    if count.None? || count.value.value == 0 { return false, headers, hashes; }
    var index: nat, offset: nat := 0, count.value.end;
    while index < count.value.value
      invariant 0 <= index <= count.value.value
      invariant ParseFrom(hash, s, offset, locator, index, count.value.value, headers) == Parse(hash, s, locator, given)
      invariant given <= headers && hashes == givenHashes + Hashes(headers[|given|..])
    {
      if offset + 80 > |s| { return false, headers, hashes; }
      var header := s[offset..offset + 80];
      var transactions := ReadCompactSize(s, offset + 80);
      if transactions.None? || transactions.value.value != 0 { return false, headers, hashes; }
      var parsed := Extract(hash, header, locator, index);
      hashes := hashes + [parsed.hash];
      headers := headers + [parsed];
      offset := transactions.value.end;
      index := index + 1;
    }
    return true, headers, hashes;
  }

  // ----- round trip -----

  lemma NumberOfFour(v: Word32)
    ensures LittleNumber(LittleEndian(v, 4)) == v
  {
    Widths();
    LittleEndianInverse(v, 4);
  }

  lemma SameHeight(locator: Word32, index: nat)
    ensures (locator + index % U32 + 1) % U32 == (locator + index + 1) % U32
  {
  }

  lemma Fields(h: WireHeader)
    ensures
      var s := HeaderBytes(h);
      && s[..4] == LittleEndian(h.version, 4) && s[4..36] == h.previous && s[36..68] == h.merkleRoot
      && s[68..72] == LittleEndian(h.timestamp, 4) && s[72..76] == LittleEndian(h.bits, 4)
      && s[76..] == LittleEndian(h.nonce, 4)
  {
    hide LittleEndian;
    var s := HeaderBytes(h);
    var a, b, c := LittleEndian(h.timestamp, 4), LittleEndian(h.bits, 4), LittleEndian(h.nonce, 4);
    assert s[68..] == Times(h);
    assert s[68..72] == Times(h)[..4] == a;
    assert s[72..76] == Times(h)[4..8] == b;
    assert s[76..] == Times(h)[8..] == c;
  }

  lemma ExtractInverse(hash: HashFunction, h: WireHeader, locator: Word32, index: nat)
    ensures Extract(hash, HeaderBytes(h), locator, index) == HeaderOf(hash, h, locator, index)
  {
    Fields(h);
    hide HeaderBytes, LittleEndian, LittleNumber, Reversed;
    NumberOfFour(h.version);
    NumberOfFour(h.timestamp);
    NumberOfFour(h.bits);
    NumberOfFour(h.nonce);
    SameHeight(locator, index);
  }

  lemma {:induction false} HeadersParse(hash: HashFunction, headers: seq<WireHeader>, s: seq<Byte>, offset: nat,
                                        locator: Word32, index: nat, done: seq<Header>)
    requires At(s, offset, HeadersBytes(headers))
    ensures ParseFrom(hash, s, offset, locator, index, index + |headers|, done)
         == Parsed(true, done + HeadersOf(hash, headers, locator, index))
    decreases |headers|
  {
    hide HeaderBytes, Extract, HeaderOf, At, ReadCompact, Compact;
    if headers == [] {
      assert done + HeadersOf(hash, headers, locator, index) == done;
    } else {
      var first, rest := HeaderBytes(headers[0]), HeadersBytes(headers[1..]);
      AtConcat(s, offset, first + Compact(0), rest);
      AtConcat(s, offset, first, Compact(0));
      CompactRoundTrip(0, s, offset + 80);
      Stands(s, offset, first);
      ExtractInverse(hash, headers[0], locator, index);
      HeadersParse(hash, headers[1..], s, offset + |first + Compact(0)|, locator, index + 1,
                   done + [HeaderOf(hash, headers[0], locator, index)]);
      assert done + HeadersOf(hash, headers, locator, index)
          == done + [HeaderOf(hash, headers[0], locator, index)] + HeadersOf(hash, headers[1..], locator, index + 1);
    }
  }

  lemma Stands(s: seq<Byte>, offset: nat, piece: seq<Byte>)
    requires At(s, offset, piece)
    ensures offset + |piece| <= |s| && s[offset..offset + |piece|] == piece
  {
  }

  // Every non-empty list of headers, with or without trailing bytes.
  lemma {:induction false} PayloadParses(hash: HashFunction, headers: seq<WireHeader>, trailing: seq<Byte>, locator: Word32)
    requires 0 < |headers| < 0x1_0000_0000_0000_0000
    ensures Parse(hash, PayloadBytes(headers) + trailing, locator, []) == Parsed(true, HeadersOf(hash, headers, locator, 0))
  {
    hide HeadersBytes, ParseFrom, Compact, ReadCompact;
    var s, count := PayloadBytes(headers) + trailing, Compact(|headers|);
    assert At(s, 0, PayloadBytes(headers)) by { assert s[0..|PayloadBytes(headers)|] == PayloadBytes(headers); }
    AtConcat(s, 0, count, HeadersBytes(headers));
    CompactRoundTrip(|headers|, s, 0);
    HeadersParse(hash, headers, s, |count|, locator, 0, []);
    assert [] + HeadersOf(hash, headers, locator, 0) == HeadersOf(hash, headers, locator, 0);
  }

  // The columns of each parsed header.
  lemma ParsedColumns(hash: HashFunction, headers: seq<WireHeader>, trailing: seq<Byte>, locator: Word32, i: nat)
    requires 0 < |headers| < 0x1_0000_0000_0000_0000 && i < |headers|
    ensures
      var r := Parse(hash, PayloadBytes(headers) + trailing, locator, []);
      && r.ok && |r.headers| == |headers|
      && var h, w := r.headers[i], headers[i];
         && h.height == (locator + i + 1) % U32 && h.version == w.version && h.timestamp == w.timestamp
         && h.bits == w.bits && h.nonce == w.nonce && h.hash == Reversed(hash(HeaderBytes(w)))
         && h.previousHash == Reversed(w.previous) && h.merkleRoot == Reversed(w.merkleRoot)
  {
    hide Parse, PayloadBytes, HeaderBytes, Reversed;
    PayloadParses(hash, headers, trailing, locator);
  }

  // ----- acceptance -----

  lemma {:induction false} NumberOfReversed(s: seq<Byte>)
    ensures Number(Reversed(s)) == LittleNumber(s)
  {
    if s != [] {
      NumberOfReversed(s[1..]);
      assert Reversed(s)[..|s| - 1] == Reversed(s[1..]);
    }
  }

  lemma {:induction false} ReversedInjective(s: seq<Byte>, t: seq<Byte>)
    requires |s| == |t|
    ensures Reversed(s) == Reversed(t) ==> s == t
  {
    if s != [] && Reversed(s) == Reversed(t) {
      assert Reversed(s)[|s| - 1] == s[0] && Reversed(t)[|s| - 1] == t[0];
      assert Reversed(s)[..|s| - 1] == Reversed(s[1..]) && Reversed(t)[..|s| - 1] == Reversed(t[1..]);
      ReversedInjective(s[1..], t[1..]);
      assert s == [s[0]] + s[1..] && t == [t[0]] + t[1..];
    }
  }

  // Proof of work of a wire header: its hash as a little-endian number.
  ghost predicate WireWorked(hash: HashFunction, h: WireHeader) {
    h.bits != 0 ==> Derivable(h.bits) && LittleNumber(hash(HeaderBytes(h))) <= Denoted(h.bits) <= Number(POW_LIMIT)
  }

  // The wire header names the hash of the one before it, and keeps its bits
  // where header acceptance requires it.
  ghost predicate WireFollows(hash: HashFunction, p: WireHeader, h: WireHeader, height: Word32) {
    && h.previous == hash(HeaderBytes(p))
    && (h.bits != 0 && p.bits != 0 && height % 2016 != 0 ==> h.bits == p.bits)
  }

  // Parsed headers are accepted as a chain exactly when the headers on the wire
  // are linked and worked: heights and completeness never stand in the way.
  lemma ParsedChainIff(hash: HashFunction, headers: seq<WireHeader>, locator: Word32)
    ensures Chain(HeadersOf(hash, headers, locator, 0)) <==>
      && (forall i :: 0 <= i < |headers| ==> WireWorked(hash, headers[i]))
      && (forall i :: 0 < i < |headers| ==> WireFollows(hash, headers[i - 1], headers[i], (locator + i) % U32))
  {
    hide HeaderBytes, Denoted, Derivable, Number, POW_LIMIT, WireWorked, Worked, Follows, WireFollows, Complete, HeaderOf;
    var r := HeadersOf(hash, headers, locator, 0);
    forall i | 0 <= i < |headers|
      ensures Complete(r[i]) && (Worked(r[i]) <==> WireWorked(hash, headers[i]))
    {
      WorkedOnTheWire(hash, headers[i], locator, i);
    }
    forall i | 0 < i < |headers|
      ensures Follows(r[i - 1], r[i]) <==> WireFollows(hash, headers[i - 1], headers[i], (locator + i) % U32)
    {
      FollowsOnTheWire(hash, headers[i - 1], headers[i], locator, i);
    }
  }

  lemma WorkedOnTheWire(hash: HashFunction, h: WireHeader, locator: Word32, index: nat)
    ensures Complete(HeaderOf(hash, h, locator, index))
    ensures Worked(HeaderOf(hash, h, locator, index)) <==> WireWorked(hash, h)
  {
    hide HeaderBytes, Denoted, Derivable, Number, LittleNumber, POW_LIMIT, Reversed;
    NumberOfReversed(hash(HeaderBytes(h)));
  }

  lemma FollowsOnTheWire(hash: HashFunction, p: WireHeader, h: WireHeader, locator: Word32, index: nat)
    requires index > 0
    ensures Follows(HeaderOf(hash, p, locator, index - 1), HeaderOf(hash, h, locator, index))
       <==> WireFollows(hash, p, h, (locator + index) % U32)
  {
    hide HeaderBytes, Reversed;
    ReversedInjective(h.previous, hash(HeaderBytes(p)));
    assert ((locator + index) % U32 + 1) % U32 == (locator + index + 1) % U32;
  }
}
