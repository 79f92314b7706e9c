// Bitcoin blocks and their wire form: BIP 144 "Serialization", with and without
// witness data, and the stripped form of BIP 141 "Transaction ID".
module BlockWire {
  import opened Wrappers
  import opened Bytes
  import opened Modular
  import opened CompactSize

  datatype Input = Input(outpoint: seq<Byte>, script: seq<Byte>, sequenceNumber: seq<Byte>)

  datatype Output = Output(value: Size, script: seq<Byte>)

  // One stack per input; the flag byte is any byte but zero.
  datatype Witness = Witness(flag: Byte, stacks: seq<seq<seq<Byte>>>)

  datatype Transaction = Transaction(
    version: nat, inputs: seq<Input>, outputs: seq<Output>, segwit: Option<Witness>, lockTime: seq<Byte>)

  datatype Block = Block(header: seq<Byte>, transactions: seq<Transaction>)

  ghost predicate WellFormedInput(i: Input) { |i.outpoint| == 36 && |i.script| < U64 && |i.sequenceNumber| == 4 }

  ghost predicate WellFormedOutput(o: Output) { |o.script| < U64 }

  ghost predicate WellFormedStack(stack: seq<seq<Byte>>) {
    |stack| < U64 && forall i :: 0 <= i < |stack| ==> |stack[i]| < U64
  }

  ghost predicate WellFormed(t: Transaction) {
    && t.version < 0x1_0000_0000 && |t.lockTime| == 4
    && 0 < |t.inputs| < U64 && (forall i :: 0 <= i < |t.inputs| ==> WellFormedInput(t.inputs[i]))
    && |t.outputs| < U64 && (forall i :: 0 <= i < |t.outputs| ==> WellFormedOutput(t.outputs[i]))
    && (t.segwit.Some? ==>
          && t.segwit.value.flag != 0 && |t.segwit.value.stacks| == |t.inputs|
          && forall i :: 0 <= i < |t.inputs| ==> WellFormedStack(t.segwit.value.stacks[i]))
  }

  ghost predicate WellFormedBlock(b: Block) {
    && |b.header| == 80 && 0 < |b.transactions| < U64
    && forall i :: 0 <= i < |b.transactions| ==> WellFormed(b.transactions[i])
  }

  // ----- serialization -----

  function Blob(s: seq<Byte>): seq<Byte>
    requires |s| < U64
  {
    Compact(|s|) + s
  }

  ghost function InputBytes(i: Input): seq<Byte>
    requires WellFormedInput(i)
  {
    i.outpoint + Blob(i.script) + i.sequenceNumber
  }

  ghost function InputsBytes(s: seq<Input>): seq<Byte>
    requires forall i :: 0 <= i < |s| ==> WellFormedInput(s[i])
  {
    if s == [] then [] else InputBytes(s[0]) + InputsBytes(s[1..])
  }

  ghost function OutputBytes(o: Output): seq<Byte>
    requires WellFormedOutput(o)
  {
    LittleEndian(o.value, 8) + Blob(o.script)
  }

  ghost function OutputsBytes(s: seq<Output>): seq<Byte>
    requires forall i :: 0 <= i < |s| ==> WellFormedOutput(s[i])
  {
    if s == [] then [] else OutputBytes(s[0]) + OutputsBytes(s[1..])
  }

  ghost function ItemsBytes(stack: seq<seq<Byte>>): seq<Byte>
    requires forall i :: 0 <= i < |stack| ==> |stack[i]| < U64
  {
    if stack == [] then [] else Blob(stack[0]) + ItemsBytes(stack[1..])
  }

  ghost function StacksBytes(stacks: seq<seq<seq<Byte>>>): seq<Byte>
    requires forall i :: 0 <= i < |stacks| ==> WellFormedStack(stacks[i])
  {
    if stacks == [] then []
    else
      assert WellFormedStack(stacks[0]);
      Compact(|stacks[0]|) + ItemsBytes(stacks[0]) + StacksBytes(stacks[1..])
  }

  ghost function VersionBytes(t: Transaction): seq<Byte> { LittleEndian(t.version, 4) }

  ghost function InputSection(t: Transaction): seq<Byte>
    requires WellFormed(t)
  {
    Compact(|t.inputs|) + InputsBytes(t.inputs)
  }

  ghost function OutputSection(t: Transaction): seq<Byte>
    requires WellFormed(t)
  {
    Compact(|t.outputs|) + OutputsBytes(t.outputs)
  }

  ghost function MarkerBytes(t: Transaction): seq<Byte> {
    if t.segwit.Some? then [0, t.segwit.value.flag] else []
  }

  ghost function WitnessBytes(t: Transaction): seq<Byte>
    requires WellFormed(t)
  {
    if t.segwit.Some? then StacksBytes(t.segwit.value.stacks) else []
  }

  // What a transaction id commits to.
  ghost function Stripped(t: Transaction): seq<Byte>
    requires WellFormed(t)
  {
    VersionBytes(t) + InputSection(t) + OutputSection(t) + t.lockTime
  }

  // What a witness transaction id commits to, and what is on the wire.
  ghost function Full(t: Transaction): seq<Byte>
    requires WellFormed(t)
  {
    VersionBytes(t) + (MarkerBytes(t) + (InputSection(t) + (OutputSection(t) + (WitnessBytes(t) + t.lockTime))))
  }

  ghost function TransactionsBytes(s: seq<Transaction>): seq<Byte>
    requires forall i :: 0 <= i < |s| ==> WellFormed(s[i])
  {
    if s == [] then [] else Full(s[0]) + TransactionsBytes(s[1..])
  }

  ghost function BlockBytes(b: Block): seq<Byte>
    requires WellFormedBlock(b)
  {
    b.header + (Compact(|b.transactions|) + TransactionsBytes(b.transactions))
  }

  // The sum of the output values in 64 bits.
  function OutputTotal(outputs: seq<Output>, start: nat): nat
    requires start < U64
  {
    if outputs == [] then start else OutputTotal(outputs[1..], (start + outputs[0].value) % U64)
  }

  // The sum without a width.
  function PlainTotal(outputs: seq<Output>): nat {
    if outputs == [] then 0 else outputs[0].value + PlainTotal(outputs[1..])
  }

  lemma {:induction false} OutputTotalIsSum(outputs: seq<Output>, start: nat)
    requires start < U64
    ensures OutputTotal(outputs, start) == (start + PlainTotal(outputs)) % U64
    decreases |outputs|
  {
    if outputs != [] {
      OutputTotalIsSum(outputs[1..], (start + outputs[0].value) % U64);
      AddMod(start + outputs[0].value, PlainTotal(outputs[1..]));
    }
  }

  // The layout of a transaction with one input, one output and one witness item,
  // in full and as its id commits to it.
  lemma KnownTransaction(outpoint: seq<Byte>, lockTime: seq<Byte>)
    requires |outpoint| == 36 && |lockTime| == 4
    ensures
      var t := Transaction(2, [Input(outpoint, [0x51], [0xFF, 0xFF, 0xFF, 0xFE])], [Output(0x1_0000, [0x52, 0x53])],
                           Some(Witness(1, [[[0x42]]])), lockTime);
      var body := [1] + outpoint + [1, 0x51, 0xFF, 0xFF, 0xFF, 0xFE] + [1, 0, 0, 1, 0, 0, 0, 0, 0, 2, 0x52, 0x53];
      && WellFormed(t)
      && Full(t) == [2, 0, 0, 0, 0, 1] + body + [1, 1, 0x42] + lockTime
      && Stripped(t) == [2, 0, 0, 0] + body + lockTime
  {
    hide LittleEndian;
    var i, o := Input(outpoint, [0x51], [0xFF, 0xFF, 0xFF, 0xFE]), Output(0x1_0000, [0x52, 0x53]);
    var t := Transaction(2, [i], [o], Some(Witness(1, [[[0x42]]])), lockTime);
    KnownNumbers();
    assert WellFormed(t);
    hide WellFormed;
    KnownParts(i, o);
    assert InputSection(t) == [1] + InputBytes(i) && OutputSection(t) == [1] + OutputBytes(o);
    assert WitnessBytes(t) == [1, 1, 0x42] by { KnownWitness(); }
    var ins, outs, wit := InputSection(t), OutputSection(t), WitnessBytes(t);
    hide InputSection, OutputSection, WitnessBytes, InputBytes, OutputBytes;
    assert Full(t) == [2, 0, 0, 0] + ([0, 1] + (ins + (outs + (wit + lockTime))));
    assert Stripped(t) == [2, 0, 0, 0] + ins + outs + lockTime;
    assert ins + outs == [1] + outpoint + [1, 0x51, 0xFF, 0xFF, 0xFF, 0xFE] + [1, 0, 0, 1, 0, 0, 0, 0, 0, 2, 0x52, 0x53];
  }

  lemma KnownNumbers()
    ensures LittleEndian(2, 4) == [2, 0, 0, 0] && LittleEndian(0x1_0000, 8) == [0, 0, 1, 0, 0, 0, 0, 0]
  {
    hide LittleEndian;
    TwoBytes(0, 0, 0);
    TwoBytes(1, 1, 0);
    TwoBytes(2, 2, 0);
    FourBytes(2, 2, 0);
    FourBytes(0, 0, 0);
    FourBytes(0x1_0000, 0, 1);
    EightBytes(0x1_0000, 0x1_0000, 0);
  }

  lemma KnownParts(i: Input, o: Output)
    requires |i.outpoint| == 36 && i.script == [0x51] && i.sequenceNumber == [0xFF, 0xFF, 0xFF, 0xFE]
    requires o == Output(0x1_0000, [0x52, 0x53])
    ensures InputBytes(i) == i.outpoint + [1, 0x51, 0xFF, 0xFF, 0xFF, 0xFE]
    ensures OutputBytes(o) == [0, 0, 1, 0, 0, 0, 0, 0, 2, 0x52, 0x53]
    ensures InputsBytes([i]) == InputBytes(i) && OutputsBytes([o]) == OutputBytes(o)
  {
    hide LittleEndian;
    KnownNumbers();
  }

  lemma KnownWitness()
    ensures StacksBytes([[[0x42]]]) == [1, 1, 0x42]
  {
    hide LittleEndian;
    var stack: seq<seq<Byte>> := [[0x42]];
    assert stack[1..] == [] && ItemsBytes(stack) == Blob([0x42]) + ItemsBytes([]);
    assert Blob([0x42]) == [1, 0x42] && ItemsBytes(stack) == [1, 0x42];
    assert [stack][1..] == [];
    assert StacksBytes([stack]) == Compact(1) + ItemsBytes(stack) + StacksBytes([]);
  }
}
