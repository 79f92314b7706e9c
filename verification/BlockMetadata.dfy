// What ParseBlockMetadata in src/Blocxxi/Bitcoin/adapter.cpp reports about a
// block, column by column, in terms of the block and its header.
module BlockMetadata {
  import opened Wrappers
  import opened Bytes
  import opened Modular
  import opened BlockWire
  import opened BlockParser
  import opened BlockRoundTrip
  import opened Merkle
  import W = HeadersPayload

  // What the txids commit to, in order.
  ghost function StrippedIds(hash: HashFunction, txs: seq<Transaction>): (ids: seq<Hash32>)
    requires forall i :: 0 <= i < |txs| ==> WellFormed(txs[i])
    ensures |ids| == |txs|
  {
    seq(|txs|, i requires 0 <= i < |txs| => StrippedId(hash, txs[i]))
  }

  ghost function StrippedId(hash: HashFunction, t: Transaction): Hash32
    requires WellFormed(t)
  {
    hash(Stripped(t))
  }

  // The columns taken from the header and the totals over the block.
  lemma HeaderColumns(hash: HashFunction, h: W.WireHeader, b: Block, trailing: seq<Byte>)
    requires WellFormedBlock(b) && b.header == W.HeaderBytes(h)
    ensures
      var m := ParseBlock(hash, BlockBytes(b) + trailing);
      && m.Some?
      && m.value.version == h.version && m.value.timestamp == h.timestamp && m.value.nonce == h.nonce
      && m.value.previousHash == h.previous && m.value.merkleRoot == h.merkleRoot
      && m.value.blockHash == hash(W.HeaderBytes(h))
      && m.value.transactionCount == |b.transactions|
      && m.value.totalOutputValue == BlockTotal(b.transactions) % U64
      && (m.value.merkleRootMatches <==> Root(hash, StrippedIds(hash, b.transactions)) == h.merkleRoot)
  {
    var infos := InfosOf(hash, b.transactions);
    assert Ids(infos) == StrippedIds(hash, b.transactions) by { hide Stripped, Full, WellFormed, PlainTotal; }
    var header := W.HeaderBytes(h);
    assert header[36..68] == h.merkleRoot && header[4..36] == h.previous && header[68..72] == LittleEndian(h.timestamp, 4)
        && header[..4] == LittleEndian(h.version, 4) && header[76..80] == header[76..] == LittleEndian(h.nonce, 4) by {
      hide LittleEndian, WellFormedBlock;
      W.Fields(h);
    }
    hide W.HeaderBytes, WellFormedBlock, BlockBytes, ParseBlock, InfosOf, StrippedIds, LittleEndian, LittleNumber, Root, Ids, BlockTotal, ValueTotal;
    BlockParses(hash, b, trailing);
    ValueTotalIsSum(hash, b.transactions);
    W.NumberOfFour(h.version);
    W.NumberOfFour(h.timestamp);
    W.NumberOfFour(h.nonce);
  }

  // The columns of one transaction.
  lemma TransactionColumns(hash: HashFunction, b: Block, trailing: seq<Byte>, i: nat)
    requires WellFormedBlock(b) && i < |b.transactions|
    ensures
      var m := ParseBlock(hash, BlockBytes(b) + trailing);
      && m.Some? && |m.value.transactions| == |b.transactions|
      && var t, column := b.transactions[i], m.value.transactions[i];
         && column.version == t.version && column.size == |Full(t)| && column.hasWitness == t.segwit.Some?
         && column.inputCount == |t.inputs| && column.outputCount == |t.outputs|
         && column.outputValue == PlainTotal(t.outputs) % U64
         && column.id == hash(Stripped(t)) && column.witnessId == hash(Full(t))
  {
    hide WellFormed, BlockBytes, ParseBlock, Full, Stripped, PlainTotal;
    BlockParses(hash, b, trailing);
  }
}
