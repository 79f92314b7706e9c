// The parser of BlockParser recovers what BlockWire serializes.
module BlockRoundTrip {
  import opened Wrappers
  import opened Bytes
  import opened Slices
  import opened Modular
  import opened CompactSize
  import opened BlockWire
  import opened Merkle
  import opened BlockParser

  // ----- what a block should be described as -----

  ghost function InfoOf(hash: HashFunction, t: Transaction): TransactionInfo
    requires WellFormed(t)
  {
    TransactionInfo(|Full(t)|, t.version, |t.inputs|, |t.outputs|, PlainTotal(t.outputs) % U64, t.segwit.Some?,
                    hash(Full(t)), hash(Stripped(t)))
  }

  ghost function InfosOf(hash: HashFunction, s: seq<Transaction>): (r: seq<TransactionInfo>)
    requires forall i :: 0 <= i < |s| ==> WellFormed(s[i])
    ensures |r| == |s| && forall i :: 0 <= i < |s| ==> r[i] == InfoOf(hash, s[i])
  {
    seq(|s|, i requires 0 <= i < |s| => InfoOf(hash, s[i]))
  }

  // ----- the pieces -----

  lemma BlobSkips(b: seq<Byte>, s: seq<Byte>, offset: nat)
    requires |b| < U64 && At(s, offset, Blob(b))
    ensures SkipBlob(s, offset) == Some(offset + |Blob(b)|)
  {
    hide Compact, ReadCompact;
    AtConcat(s, offset, Compact(|b|), b);
    CompactRoundTrip(|b|, s, offset);
  }

  lemma InputSkips(i: Input, s: seq<Byte>, offset: nat)
    requires WellFormedInput(i) && At(s, offset, InputBytes(i))
    ensures SkipInput(s, offset) == Some(offset + |InputBytes(i)|)
  {
    hide Blob, SkipBlob;
    AtConcat(s, offset, i.outpoint + Blob(i.script), i.sequenceNumber);
    AtConcat(s, offset, i.outpoint, Blob(i.script));
    BlobSkips(i.script, s, offset + 36);
  }

  lemma {:induction false} InputsSkip(inputs: seq<Input>, s: seq<Byte>, offset: nat)
    requires forall i :: 0 <= i < |inputs| ==> WellFormedInput(inputs[i])
    requires At(s, offset, InputsBytes(inputs))
    ensures SkipInputs(s, offset, |inputs|) == Some(offset + |InputsBytes(inputs)|)
    decreases |inputs|
  {
    hide InputBytes, SkipInput, At;
    if inputs != [] {
      AtConcat(s, offset, InputBytes(inputs[0]), InputsBytes(inputs[1..]));
      InputSkips(inputs[0], s, offset);
      InputsSkip(inputs[1..], s, offset + |InputBytes(inputs[0])|);
    }
  }

  lemma OutputReads(o: Output, s: seq<Byte>, offset: nat, total: nat)
    requires WellFormedOutput(o) && At(s, offset, OutputBytes(o))
    ensures ReadOutput(s, offset, total) == Some(Sum((total + o.value) % U64, offset + |OutputBytes(o)|))
  {
    hide Blob, SkipBlob, LittleEndian, LittleNumber;
    AtConcat(s, offset, LittleEndian(o.value, 8), Blob(o.script));
    BlobSkips(o.script, s, offset + 8);
    Widths();
    LittleEndianInverse(o.value, 8);
  }

  lemma {:induction false} OutputsRead(outputs: seq<Output>, s: seq<Byte>, offset: nat, total: nat)
    requires forall i :: 0 <= i < |outputs| ==> WellFormedOutput(outputs[i])
    requires total < U64 && At(s, offset, OutputsBytes(outputs))
    ensures ReadOutputs(s, offset, |outputs|, total) == Some(Sum(OutputTotal(outputs, total), offset + |OutputsBytes(outputs)|))
    decreases |outputs|
  {
    hide OutputBytes, ReadOutput, At;
    if outputs != [] {
      AtConcat(s, offset, OutputBytes(outputs[0]), OutputsBytes(outputs[1..]));
      OutputReads(outputs[0], s, offset, total);
      OutputsRead(outputs[1..], s, offset + |OutputBytes(outputs[0])|, (total + outputs[0].value) % U64);
    }
  }

  lemma {:induction false} ItemsSkip(stack: seq<seq<Byte>>, s: seq<Byte>, offset: nat)
    requires forall i :: 0 <= i < |stack| ==> |stack[i]| < U64
    requires At(s, offset, ItemsBytes(stack))
    ensures SkipItems(s, offset, |stack|) == Some(offset + |ItemsBytes(stack)|)
    decreases |stack|
  {
    hide Blob, SkipBlob, At;
    if stack != [] {
      AtConcat(s, offset, Blob(stack[0]), ItemsBytes(stack[1..]));
      BlobSkips(stack[0], s, offset);
      ItemsSkip(stack[1..], s, offset + |Blob(stack[0])|);
    }
  }

  lemma StackSkips(stack: seq<seq<Byte>>, s: seq<Byte>, offset: nat)
    requires WellFormedStack(stack) && At(s, offset, Compact(|stack|) + ItemsBytes(stack))
    ensures SkipStack(s, offset) == Some(offset + |Compact(|stack|) + ItemsBytes(stack)|)
  {
    hide Compact, ReadCompact, At, ItemsBytes, SkipItems;
    AtConcat(s, offset, Compact(|stack|), ItemsBytes(stack));
    CompactRoundTrip(|stack|, s, offset);
    ItemsSkip(stack, s, offset + |Compact(|stack|)|);
  }

  lemma {:induction false} StacksSkip(stacks: seq<seq<seq<Byte>>>, s: seq<Byte>, offset: nat)
    requires forall i :: 0 <= i < |stacks| ==> WellFormedStack(stacks[i])
    requires At(s, offset, StacksBytes(stacks))
    ensures SkipStacks(s, offset, |stacks|) == Some(offset + |StacksBytes(stacks)|)
    decreases |stacks|
  {
    hide Compact, At, ItemsBytes, SkipStack;
    if stacks != [] {
      assert WellFormedStack(stacks[0]);
      var head := Compact(|stacks[0]|) + ItemsBytes(stacks[0]);
      AtConcat(s, offset, head, StacksBytes(stacks[1..]));
      StackSkips(stacks[0], s, offset);
      StacksSkip(stacks[1..], s, offset + |head|);
    }
  }

  // ----- one transaction -----

  ghost function LayoutOf(t: Transaction, start: nat): Layout
    requires WellFormed(t)
  {
    var inputStart := start + 4 + |MarkerBytes(t)|;
    var inputEnd := inputStart + |InputSection(t)|;
    var outputEnd := inputEnd + |OutputSection(t)|;
    Layout(start, start + 4, inputStart, inputEnd, outputEnd, outputEnd + |WitnessBytes(t)| + 4,
           |t.inputs|, |t.outputs|, OutputTotal(t.outputs, 0), t.segwit.Some?)
  }

  ghost predicate Sections(t: Transaction, s: seq<Byte>, start: nat)
    requires WellFormed(t)
  {
    var l := LayoutOf(t, start);
    && At(s, start, VersionBytes(t)) && At(s, start + 4, MarkerBytes(t))
    && At(s, l.inputStart, InputSection(t)) && At(s, l.inputEnd, OutputSection(t))
    && At(s, l.outputEnd, WitnessBytes(t)) && At(s, l.end - 4, t.lockTime)
  }

  lemma FullSections(t: Transaction, s: seq<Byte>, start: nat)
    requires WellFormed(t) && At(s, start, Full(t))
    ensures Sections(t, s, start) && LayoutOf(t, start).end == start + |Full(t)| <= |s|
  {
    hide At, VersionBytes, MarkerBytes, InputSection, OutputSection, WitnessBytes, WellFormed;
    Sizes(t);
    SixParts(s, start, VersionBytes(t), MarkerBytes(t), InputSection(t), OutputSection(t), WitnessBytes(t), t.lockTime);
  }

  lemma SixParts(s: seq<Byte>, at: nat, a: seq<Byte>, b: seq<Byte>, c: seq<Byte>, d: seq<Byte>, e: seq<Byte>, f: seq<Byte>)
    requires At(s, at, a + (b + (c + (d + (e + f)))))
    ensures At(s, at, a) && At(s, at + |a|, b) && At(s, at + |a| + |b|, c) && At(s, at + |a| + |b| + |c|, d)
    ensures At(s, at + |a| + |b| + |c| + |d|, e) && At(s, at + |a| + |b| + |c| + |d| + |e|, f)
    ensures at + |a| + |b| + |c| + |d| + |e| + |f| <= |s|
  {
    AtConcat(s, at, a, b + (c + (d + (e + f))));
    AtConcat(s, at + |a|, b, c + (d + (e + f)));
    AtConcat(s, at + |a| + |b|, c, d + (e + f));
    AtConcat(s, at + |a| + |b| + |c|, d, e + f);
    AtConcat(s, at + |a| + |b| + |c| + |d|, e, f);
  }

  lemma Sizes(t: Transaction)
    requires WellFormed(t)
    ensures |t.lockTime| == 4 && |VersionBytes(t)| == 4
  {
  }

  // A witness marker is recognised exactly when there is one, because the count
  // of a non-empty input list does not start with a zero byte.
  lemma MarkerRecognised(t: Transaction, s: seq<Byte>, start: nat)
    requires WellFormed(t) && At(s, start + 4, MarkerBytes(t))
    requires At(s, start + 4 + |MarkerBytes(t)|, InputSection(t))
    ensures WitnessMarked(s, start + 4) <==> t.segwit.Some?
  {
    hide Compact;
    if t.segwit.Some? {
      assert s[start + 4..start + 6] == [0, t.segwit.value.flag];
      assert s[start + 4] == s[start + 4..start + 6][0] && s[start + 5] == s[start + 4..start + 6][1];
    } else {
      var section := InputSection(t);
      assert s[start + 4] == s[start + 4..start + 4 + |section|][0] == section[0] == Compact(|t.inputs|)[0];
    }
  }

  lemma LayoutParses(t: Transaction, s: seq<Byte>, start: nat)
    requires WellFormed(t) && At(s, start, Full(t))
    ensures ParseLayout(s, start) == Some(LayoutOf(t, start))
  {
    hide At, WellFormed, Full, InputSection, OutputSection, WitnessBytes, MarkerBytes, ParseSections;
    FullSections(t, s, start);
    MarkerRecognised(t, s, start);
    MarkerSize(t);
    SectionsParse(t, s, start);
  }

  lemma MarkerSize(t: Transaction)
    ensures |MarkerBytes(t)| == if t.segwit.Some? then 2 else 0
  {
  }

  lemma SectionsParse(t: Transaction, s: seq<Byte>, start: nat)
    requires WellFormed(t) && Sections(t, s, start) && LayoutOf(t, start).end <= |s|
    ensures ParseSections(s, start, t.segwit.Some?, LayoutOf(t, start).inputStart) == Some(LayoutOf(t, start))
  {
    hide At, Compact, ReadCompact, SkipInputs, ReadOutputs, SkipStacks, InputsBytes, OutputsBytes, StacksBytes, OutputTotal;
    var l := LayoutOf(t, start);
    AtConcat(s, l.inputStart, Compact(|t.inputs|), InputsBytes(t.inputs));
    CompactRoundTrip(|t.inputs|, s, l.inputStart);
    InputsSkip(t.inputs, s, l.inputStart + |Compact(|t.inputs|)|);
    AtConcat(s, l.inputEnd, Compact(|t.outputs|), OutputsBytes(t.outputs));
    CompactRoundTrip(|t.outputs|, s, l.inputEnd);
    OutputsRead(t.outputs, s, l.inputEnd + |Compact(|t.outputs|)|, 0);
    if t.segwit.Some? {
      StacksSkip(t.segwit.value.stacks, s, l.outputEnd);
    }
  }

  // The description of a parsed transaction is that of the transaction. In
  // particular the bytes hashed for its id are the stripped serialization.
  lemma DescribeParsed(hash: HashFunction, t: Transaction, s: seq<Byte>, start: nat)
    requires WellFormed(t) && At(s, start, Full(t))
    ensures LayoutOf(t, start).Within(s) && LayoutOf(t, start).end == start + |Full(t)|
    ensures IdBytes(s, LayoutOf(t, start)) == Stripped(t)
    ensures Describe(hash, s, LayoutOf(t, start)) == InfoOf(hash, t)
  {
    hide InputSection, OutputSection, WitnessBytes, MarkerBytes, Full, LittleEndian, LittleNumber, OutputTotal, PlainTotal;
    OutputTotalIsSum(t.outputs, 0);
    FullSections(t, s, start);
    var l := LayoutOf(t, start);
    assert s[l.start..l.versionEnd] == VersionBytes(t);
    assert s[l.inputStart..l.inputEnd] == InputSection(t);
    assert s[l.inputEnd..l.outputEnd] == OutputSection(t);
    assert s[l.end - 4..l.end] == t.lockTime;
    assert s[l.start..l.end] == Full(t);
    Widths();
    LittleEndianInverse(t.version, 4);
  }

  // ----- the block -----

  lemma {:induction false} TransactionsParse(hash: HashFunction, txs: seq<Transaction>, s: seq<Byte>, offset: nat,
                                             done: seq<TransactionInfo>)
    requires forall i :: 0 <= i < |txs| ==> WellFormed(txs[i])
    requires At(s, offset, TransactionsBytes(txs))
    ensures ParseTransactions(hash, s, offset, |txs|, done) == Some(done + InfosOf(hash, txs))
    decreases |txs|
  {
    hide Full, ParseLayout, Describe, InfoOf, LayoutOf, At, WellFormed;
    if txs == [] {
      assert done + InfosOf(hash, txs) == done;
    } else {
      AtConcat(s, offset, Full(txs[0]), TransactionsBytes(txs[1..]));
      LayoutParses(txs[0], s, offset);
      DescribeParsed(hash, txs[0], s, offset);
      TransactionsParse(hash, txs[1..], s, offset + |Full(txs[0])|, done + [InfoOf(hash, txs[0])]);
      assert done + InfosOf(hash, txs) == done + [InfoOf(hash, txs[0])] + InfosOf(hash, txs[1..]);
    }
  }

  // Parsing the serialization of a well-formed block, with or without trailing
  // bytes, recovers everything about it.
  lemma BlockParses(hash: HashFunction, b: Block, trailing: seq<Byte>)
    requires WellFormedBlock(b)
    ensures ParseBlock(hash, BlockBytes(b) + trailing) == Some(Assemble(hash, b.header, InfosOf(hash, b.transactions)))
  {
    hide Compact, ReadCompact, ParseTransactions, Assemble, InfosOf, TransactionsBytes, WellFormed;
    var s := BlockBytes(b) + trailing;
    var count, body := Compact(|b.transactions|), TransactionsBytes(b.transactions);
    assert At(s, 0, BlockBytes(b)) by { assert s[0..|BlockBytes(b)|] == BlockBytes(b); }
    AtConcat(s, 0, b.header, count + body);
    AtConcat(s, 80, count, body);
    CompactRoundTrip(|b.transactions|, s, 80);
    TransactionsParse(hash, b.transactions, s, 80 + |count|, []);
    assert [] + InfosOf(hash, b.transactions) == InfosOf(hash, b.transactions);
    assert s[..80] == b.header;
  }

  // The block total is the sum of all output values in 64 bits.
  function BlockTotal(txs: seq<Transaction>): nat {
    if txs == [] then 0 else BlockTotal(txs[..|txs| - 1]) + PlainTotal(txs[|txs| - 1].outputs)
  }

  lemma {:induction false} ValueTotalIsSum(hash: HashFunction, txs: seq<Transaction>)
    requires forall i :: 0 <= i < |txs| ==> WellFormed(txs[i])
    ensures ValueTotal(InfosOf(hash, txs)) == BlockTotal(txs) % U64
  {
    hide WellFormed, Full, Stripped, PlainTotal;
    if txs != [] {
      var n := |txs| - 1;
      assert InfosOf(hash, txs)[..n] == InfosOf(hash, txs[..n]);
      ValueTotalIsSum(hash, txs[..n]);
      AddMod(BlockTotal(txs[..n]), PlainTotal(txs[n].outputs) % U64);
      AddMod(PlainTotal(txs[n].outputs), BlockTotal(txs[..n]));
    }
  }

  // ----- witness data and ids -----

  // The transaction with other witness data, or none.
  function Reassigned(t: Transaction, segwit: Option<Witness>): Transaction { t.(segwit := segwit) }

  lemma StrippedIgnoresWitness(t: Transaction, u: Transaction)
    requires WellFormed(t) && WellFormed(u) && u == Reassigned(t, u.segwit)
    ensures Stripped(t) == Stripped(u)
  {
  }

  // Blocks that differ only in witness data have the same transaction ids and
  // the same Merkle verdict.
  lemma WitnessChangesNoId(hash: HashFunction, b: Block, c: Block)
    requires WellFormedBlock(b) && WellFormedBlock(c)
    requires b.header == c.header && |b.transactions| == |c.transactions|
    requires forall i :: 0 <= i < |b.transactions| ==>
               c.transactions[i] == Reassigned(b.transactions[i], c.transactions[i].segwit)
    ensures
      var m := ParseBlock(hash, BlockBytes(b));
      var n := ParseBlock(hash, BlockBytes(c));
      && m.Some? && n.Some? && Ids(m.value.transactions) == Ids(n.value.transactions)
      && m.value.merkleRootMatches == n.value.merkleRootMatches
  {
    hide BlockBytes, ParseBlock, Stripped, Full, WellFormed, Root;
    BlockParses(hash, b, []);
    BlockParses(hash, c, []);
    assert BlockBytes(b) + [] == BlockBytes(b) && BlockBytes(c) + [] == BlockBytes(c);
    var x, y := InfosOf(hash, b.transactions), InfosOf(hash, c.transactions);
    forall i | 0 <= i < |x| ensures x[i].id == y[i].id {
      StrippedIgnoresWitness(b.transactions[i], c.transactions[i]);
    }
    assert Ids(x) == Ids(y);
  }

  // ----- a repeated last transaction -----

  lemma Parsed(hash: HashFunction, b: Block)
    requires WellFormedBlock(b)
    ensures
      var m := ParseBlock(hash, BlockBytes(b));
      && m.Some? && m.value.transactions == InfosOf(hash, b.transactions)
      && m.value.merkleRootMatches == (Root(hash, Ids(InfosOf(hash, b.transactions))) == b.header[36..68])
  {
    hide WellFormed, ParseBlock, BlockBytes, InfoOf, Root;
    BlockParses(hash, b, []);
    assert BlockBytes(b) + [] == BlockBytes(b);
  }

  // The Merkle verdict cannot tell a block with an odd number of transactions
  // from the same block with its last transaction repeated.
  lemma RepeatedTransactionUnseen(hash: HashFunction, b: Block, c: Block)
    requires WellFormedBlock(b) && |b.transactions| % 2 == 1 && 1 < |b.transactions| < U64 - 1
    requires c == b.(transactions := b.transactions + [b.transactions[|b.transactions| - 1]])
    ensures
      var m := ParseBlock(hash, BlockBytes(b));
      WellFormedBlock(c) && m.Some? &&
      var n := ParseBlock(hash, BlockBytes(c));
      && n.Some? && n.value.merkleRootMatches == m.value.merkleRootMatches
      && |n.value.transactions| == |m.value.transactions| + 1
  {
    hide WellFormed, ParseBlock, BlockBytes, InfoOf, Root;
    Parsed(hash, b);
    Parsed(hash, c);
    var ids, repeated := Ids(InfosOf(hash, b.transactions)), Ids(InfosOf(hash, c.transactions));
    assert repeated == ids + [ids[|ids| - 1]];
    RootIgnoresRepeat(hash, ids);
  }

  // What it does notice. Of two blocks under one header, with trees of one height
  // and no collision in them, the first being confirmed: the second is confirmed
  // if and only if it has the same id at every leaf position.
  lemma VerdictIff(hash: HashFunction, b: Block, c: Block)
    requires WellFormedBlock(b) && WellFormedBlock(c) && b.header == c.header
    ensures
      var m := ParseBlock(hash, BlockBytes(b));
      var n := ParseBlock(hash, BlockBytes(c));
      m.Some? && n.Some? &&
      var x, y := Ids(m.value.transactions), Ids(n.value.transactions);
      |x| == |b.transactions| && |y| == |c.transactions| &&
      (m.value.merkleRootMatches && NoCollision(hash, x, y) ==>
         && (Height(|x|) == Height(|y|) ==>
               Width(|x|, Height(|x|)) == 1 == Width(|y|, Height(|y|))
               && (n.value.merkleRootMatches <==> Spread(x, Height(|x|), 0) == Spread(y, Height(|y|), 0)))
         && (|x| == |y| ==> (n.value.merkleRootMatches <==> x == y)))
  {
    hide WellFormed, ParseBlock, BlockBytes, InfoOf, Root, NoCollision, Spread, Height, Width;
    Parsed(hash, b);
    Parsed(hash, c);
    var x, y := Ids(InfosOf(hash, b.transactions)), Ids(InfosOf(hash, c.transactions));
    if NoCollision(hash, x, y) {
      if Height(|x|) == Height(|y|) { RootDetermines(hash, x, y); }
      if |x| == |y| { RootDeterminesList(hash, x, y); }
    }
  }
}
