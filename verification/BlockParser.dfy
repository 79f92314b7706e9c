// Model of ParseBlockMetadata in src/Blocxxi/Bitcoin/adapter.cpp, for any
// 32-byte hash function in place of double SHA-256. Ids are kept as the bytes in
// wire order; the source stores them as reversed hexadecimal text.
module BlockParser {
  import opened Wrappers
  import opened Bytes
  import opened Modular
  import opened CompactSize
  import opened Merkle

  // The per-transaction columns of BlockMetadata.
  datatype TransactionInfo = TransactionInfo(
    size: nat, version: nat, inputCount: nat, outputCount: nat, outputValue: nat, hasWitness: bool,
    witnessId: Hash32, id: Hash32)

  datatype Metadata = Metadata(
    version: nat, timestamp: nat, nonce: nat, previousHash: seq<Byte>, merkleRoot: seq<Byte>, blockHash: Hash32,
    transactionCount: nat, totalOutputValue: nat, merkleRootMatches: bool, transactions: seq<TransactionInfo>)

  // ----- the parser as functions of the payload and an offset -----

  // read_bytes
  function Skip(s: seq<Byte>, offset: nat, count: nat): (r: Option<nat>)
    ensures r.Some? ==> offset <= r.value <= |s|
  {
    if offset + count > |s| then None else Some(offset + count)
  }

  // read_bytes as the machine computes it, modulo 2^64.
  function Skip64(s: seq<Byte>, offset: nat, count: nat): Option<nat> {
    if (offset + count) % U64 > |s| then None else Some((offset + count) % U64)
  }

  // The two agree exactly when the sum does not wrap; a sum that wraps passes the
  // check and moves the offset back.
  lemma SkipArithmetic(s: seq<Byte>, offset: nat, count: nat)
    requires offset <= |s| < U64 && count < U64
    ensures Skip64(s, offset, count) == Skip(s, offset, count) <==> offset + count < U64
    ensures offset + count >= U64 ==> Skip64(s, offset, count).Some? && Skip64(s, offset, count).value < offset
  {
  }

  // A length and that many bytes.
  function SkipBlob(s: seq<Byte>, offset: nat): (r: Option<nat>)
    ensures r.Some? ==> offset < r.value <= |s|
  {
    match ReadCompact(s, offset)
    case None => None
    case Some(size) => Skip(s, size.end, size.value)
  }

  function SkipInput(s: seq<Byte>, offset: nat): (r: Option<nat>)
    ensures r.Some? ==> offset < r.value <= |s|
  {
    match Skip(s, offset, 36)
    case None => None
    case Some(script) =>
      match SkipBlob(s, script)
      case None => None
      case Some(number) => Skip(s, number, 4)
  }

  function SkipInputs(s: seq<Byte>, offset: nat, count: nat): (r: Option<nat>)
    ensures r.Some? ==> offset <= r.value && (offset <= |s| ==> r.value <= |s|)
    decreases count
  {
    if count == 0 then Some(offset)
    else
      match SkipInput(s, offset)
      case None => None
      case Some(next) => SkipInputs(s, next, count - 1)
  }

  datatype Sum = Sum(total: nat, end: nat)

  function ReadOutput(s: seq<Byte>, offset: nat, total: nat): (r: Option<Sum>)
    ensures r.Some? ==> offset < r.value.end <= |s| && r.value.total < U64
  {
    if offset + 8 > |s| then None
    else
      match SkipBlob(s, offset + 8)
      case None => None
      case Some(end) => Some(Sum((total + LittleNumber(s[offset..offset + 8])) % U64, end))
  }

  function ReadOutputs(s: seq<Byte>, offset: nat, count: nat, total: nat): (r: Option<Sum>)
    requires total < U64
    ensures r.Some? ==> offset <= r.value.end && r.value.total < U64 && (offset <= |s| ==> r.value.end <= |s|)
    decreases count
  {
    if count == 0 then Some(Sum(total, offset))
    else
      match ReadOutput(s, offset, total)
      case None => None
      case Some(next) => ReadOutputs(s, next.end, count - 1, next.total)
  }

  function SkipItems(s: seq<Byte>, offset: nat, count: nat): (r: Option<nat>)
    ensures r.Some? ==> offset <= r.value && (offset <= |s| ==> r.value <= |s|)
    decreases count
  {
    if count == 0 then Some(offset)
    else
      match SkipBlob(s, offset)
      case None => None
      case Some(next) => SkipItems(s, next, count - 1)
  }

  function SkipStack(s: seq<Byte>, offset: nat): (r: Option<nat>)
    ensures r.Some? ==> offset < r.value <= |s|
  {
    match ReadCompact(s, offset)
    case None => None
    case Some(items) => SkipItems(s, items.end, items.value)
  }

  function SkipStacks(s: seq<Byte>, offset: nat, count: nat): (r: Option<nat>)
    ensures r.Some? ==> offset <= r.value && (offset <= |s| ==> r.value <= |s|)
    decreases count
  {
    if count == 0 then Some(offset)
    else
      match SkipStack(s, offset)
      case None => None
      case Some(next) => SkipStacks(s, next, count - 1)
  }

  predicate WitnessMarked(s: seq<Byte>, offset: nat) {
    offset + 2 <= |s| && s[offset] == 0 && s[offset + 1] != 0
  }

  // Where the sections of one transaction end.
  datatype Layout = Layout(
    start: nat, versionEnd: nat, inputStart: nat, inputEnd: nat, outputEnd: nat, end: nat,
    inputCount: nat, outputCount: nat, outputValue: nat, hasWitness: bool)
  {
    predicate Within(s: seq<Byte>) {
      start + 4 == versionEnd <= inputStart <= inputEnd <= outputEnd && outputEnd + 4 <= end <= |s|
    }
  }

  function ParseLayout(s: seq<Byte>, start: nat): (r: Option<Layout>)
    ensures r.Some? ==> r.value.start == start && r.value.Within(s)
  {
    if start + 4 > |s| then None
    else
      var marked := WitnessMarked(s, start + 4);
      ParseSections(s, start, marked, if marked then start + 6 else start + 4)
  }

  function ParseSections(s: seq<Byte>, start: nat, marked: bool, inputStart: nat): (r: Option<Layout>)
    requires start + 4 <= inputStart <= |s|
    ensures r.Some? ==> r.value.start == start && r.value.Within(s)
  {
    var inputs := ReadCompact(s, inputStart);
    if inputs.None? then None
    else
      var inputEnd := SkipInputs(s, inputs.value.end, inputs.value.value);
      if inputEnd.None? then None
      else
        var outputs := ReadCompact(s, inputEnd.value);
        if outputs.None? then None
        else
          var sum := ReadOutputs(s, outputs.value.end, outputs.value.value, 0);
          if sum.None? then None
          else
            var lock := if marked then SkipStacks(s, sum.value.end, inputs.value.value) else Some(sum.value.end);
            if lock.None? then None
            else
              var end := Skip(s, lock.value, 4);
              if end.None? then None
              else Some(Layout(start, start + 4, inputStart, inputEnd.value, sum.value.end, end.value,
                               inputs.value.value, outputs.value.value, sum.value.total, marked))
  }

  // The bytes hashed for the transaction id.
  function IdBytes(s: seq<Byte>, l: Layout): seq<Byte>
    requires l.Within(s)
  {
    s[l.start..l.versionEnd] + s[l.inputStart..l.inputEnd] + s[l.inputEnd..l.outputEnd] + s[l.end - 4..l.end]
  }

  function Describe(hash: HashFunction, s: seq<Byte>, l: Layout): TransactionInfo
    requires l.Within(s)
  {
    TransactionInfo(l.end - l.start, LittleNumber(s[l.start..l.versionEnd]), l.inputCount, l.outputCount, l.outputValue,
                    l.hasWitness, hash(s[l.start..l.end]), hash(IdBytes(s, l)))
  }

  function ParseTransactions(hash: HashFunction, s: seq<Byte>, offset: nat, count: nat, done: seq<TransactionInfo>)
    : (r: Option<seq<TransactionInfo>>)
    decreases count
  {
    if count == 0 then Some(done)
    else
      match ParseLayout(s, offset)
      case None => None
      case Some(l) => ParseTransactions(hash, s, l.end, count - 1, done + [Describe(hash, s, l)])
  }

  function Ids(infos: seq<TransactionInfo>): (r: seq<Hash32>)
    ensures |r| == |infos|
  {
    seq(|infos|, i requires 0 <= i < |infos| => infos[i].id)
  }

  function ValueTotal(infos: seq<TransactionInfo>): nat {
    if infos == [] then 0 else (ValueTotal(infos[..|infos| - 1]) + infos[|infos| - 1].outputValue) % U64
  }

  ghost function Assemble(hash: HashFunction, header: seq<Byte>, infos: seq<TransactionInfo>): Metadata
    requires |header| == 80 && |infos| > 0
  {
    Metadata(LittleNumber(header[..4]), LittleNumber(header[68..72]), LittleNumber(header[76..80]),
             header[4..36], header[36..68], hash(header),
             |infos|, ValueTotal(infos), Root(hash, Ids(infos)) == header[36..68], infos)
  }

  ghost function ParseBlock(hash: HashFunction, s: seq<Byte>): Option<Metadata> {
    if |s| < 81 then None
    else
      match ReadCompact(s, 80)
      case None => None
      case Some(count) =>
        match ParseTransactions(hash, s, count.end, count.value, [])
        case None => None
        case Some(infos) => if |infos| == 0 then None else Some(Assemble(hash, s[..80], infos))
  }

  // ----- the loops -----

  method ReadInputs(s: seq<Byte>, start: nat, count: nat) returns (r: Option<nat>)
    ensures r == SkipInputs(s, start, count)
  {
    hide Skip, ReadCompact;
    var offset := start;
    for vin := 0 to count
      invariant SkipInputs(s, start, count) == SkipInputs(s, offset, count - vin)
    {
      var script := Skip(s, offset, 36);
      if script.None? {
        return None;
      }
      var size := ReadCompactSize(s, script.value);
      if size.None? {
        return None;
      }
      var number := Skip(s, size.value.end, size.value.value);
      if number.None? {
        return None;
      }
      var next := Skip(s, number.value, 4);
      if next.None? {
        return None;
      }
      assert SkipInput(s, offset) == next;
      offset := next.value;
    }
    return Some(offset);
  }

  method SumOutputs(s: seq<Byte>, start: nat, count: nat) returns (r: Option<Sum>)
    ensures r == ReadOutputs(s, start, count, 0)
  {
    hide Skip, ReadCompact, LittleNumber;
    var offset: nat, total: nat := start, 0;
    for vout := 0 to count
      invariant total < U64
      invariant ReadOutputs(s, start, count, 0) == ReadOutputs(s, offset, count - vout, total)
    {
      if offset + 8 > |s| {
        return None;
      }
      var value := ReadLittle(s[offset..offset + 8]);
      var size := ReadCompactSize(s, offset + 8);
      if size.None? {
        return None;
      }
      var next := Skip(s, size.value.end, size.value.value);
      if next.None? {
        return None;
      }
      assert ReadOutput(s, offset, total) == Some(Sum((total + value) % U64, next.value));
      total := (total + value) % U64;
      offset := next.value;
    }
    return Some(Sum(total, offset));
  }

  method ReadStacks(s: seq<Byte>, start: nat, count: nat) returns (r: Option<nat>)
    ensures r == SkipStacks(s, start, count)
  {
    hide ReadCompact, SkipItems;
    var offset := start;
    for vin := 0 to count
      invariant SkipStacks(s, start, count) == SkipStacks(s, offset, count - vin)
    {
      var items := ReadCompactSize(s, offset);
      if items.None? {
        return None;
      }
      var next := ReadItems(s, items.value.end, items.value.value);
      if next.None? {
        return None;
      }
      assert SkipStack(s, offset) == next;
      offset := next.value;
    }
    return Some(offset);
  }

  method ReadItems(s: seq<Byte>, start: nat, count: nat) returns (r: Option<nat>)
    ensures r == SkipItems(s, start, count)
  {
    hide Skip, ReadCompact;
    var offset := start;
    for item := 0 to count
      invariant SkipItems(s, start, count) == SkipItems(s, offset, count - item)
    {
      var size := ReadCompactSize(s, offset);
      if size.None? {
        return None;
      }
      var next := Skip(s, size.value.end, size.value.value);
      if next.None? {
        return None;
      }
      assert SkipBlob(s, offset) == next;
      offset := next.value;
    }
    return Some(offset);
  }

  method ReadLayout(s: seq<Byte>, start: nat) returns (r: Option<Layout>)
    ensures r == ParseLayout(s, start)
  {
    hide ReadCompact, SkipInputs, ReadOutputs, SkipStacks;
    if start + 4 > |s| {
      return None;
    }
    var offset := start + 4;
    var hasWitness := false;
    if offset + 2 <= |s| && s[offset] == 0 && s[offset + 1] != 0 {
      hasWitness := true;
      offset := offset + 2;
    }
    assert ParseLayout(s, start) == ParseSections(s, start, hasWitness, offset);
    var inputs := ReadCompactSize(s, offset);
    if inputs.None? {
      return None;
    }
    var inputEnd := ReadInputs(s, inputs.value.end, inputs.value.value);
    if inputEnd.None? {
      return None;
    }
    var outputs := ReadCompactSize(s, inputEnd.value);
    if outputs.None? {
      return None;
    }
    var sum := SumOutputs(s, outputs.value.end, outputs.value.value);
    if sum.None? {
      return None;
    }
    var lock := Some(sum.value.end);
    if hasWitness {
      lock := ReadStacks(s, sum.value.end, inputs.value.value);
      if lock.None? {
        return None;
      }
    }
    var end := Skip(s, lock.value, 4);
    if end.None? {
      return None;
    }
    return Some(Layout(start, start + 4, offset, inputEnd.value, sum.value.end, end.value,
                       inputs.value.value, outputs.value.value, sum.value.total, hasWitness));
  }

  method ParseBlockMetadata(hash: HashFunction, s: seq<Byte>) returns (r: Option<Metadata>)
    ensures r == ParseBlock(hash, s)
  {
    hide ReadCompact, ParseLayout, Describe, Root, LittleNumber, Ids;
    if |s| < 81 {
      return None;
    }
    var version := ReadLittle(s[..4]);
    var timestamp := ReadLittle(s[68..72]);
    var nonce := ReadLittle(s[76..80]);
    var count := ReadCompactSize(s, 80);
    if count.None? {
      return None;
    }
    var offset, infos, total := count.value.end, [], 0;
    for index := 0 to count.value.value
      invariant |infos| == index && total == ValueTotal(infos)
      invariant ParseTransactions(hash, s, count.value.end, count.value.value, [])
             == ParseTransactions(hash, s, offset, count.value.value - index, infos)
    {
      var layout := ReadLayout(s, offset);
      if layout.None? {
        return None;
      }
      var info := Describe(hash, s, layout.value);
      assert (infos + [info])[..|infos|] == infos;
      total := (total + info.outputValue) % U64;
      infos := infos + [info];
      offset := layout.value.end;
    }
    var merkle := ComputeRoot(hash, Ids(infos));
    if merkle.None? {
      return None;
    }
    var header := s[..80];
    assert header[..4] == s[..4] && header[68..72] == s[68..72] && header[76..80] == s[76..80];
    return Some(Metadata(version, timestamp, nonce, header[4..36], header[36..68], hash(header),
                         |infos|, total, merkle.value == header[36..68], infos));
  }
}
