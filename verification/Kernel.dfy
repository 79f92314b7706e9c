// Model of src/Blocxxi/Chain/kernel.cpp over the stores of
// src/Blocxxi/Storage/in_memory_store.cpp. The id hash is a function given to
// the kernel; the clock is a parameter. Block ids are kept as such: the store
// of the source keys on their hexadecimal text, which identifies them.
module Kernel {
  import opened Wrappers
  import opened Modular

  // A 256-bit id, as a number; BlockId {} is zero.
  type Id = nat

  const ZERO_ID: Id := 0

  datatype Status = Success | InvalidArgument | Rejected | Duplicate

  datatype Transaction = Transaction(id: Id, kind: string, payload: string, metadata: string)

  datatype Header = Header(id: Id, previousId: Id, height: nat, timestamp: int, source: string)

  datatype Block = Block(header: Header, transactions: seq<Transaction>)

  datatype Snapshot = Snapshot(height: nat, headId: Id, blockCount: nat, acceptedTransactions: nat, bootstrapped: bool)

  const NO_SNAPSHOT: Snapshot := Snapshot(0, ZERO_ID, 0, 0, false)

  datatype Config = Config(displayName: string, createGenesis: bool, genesisPayload: string)

  // ----- the validator -----

  function Validate(block: Block, snapshot: Snapshot): (status: Status)
    ensures status.Success? <==>
            && block.header.source != []
            && if snapshot.bootstrapped
               then block.transactions != [] && block.header.height == (snapshot.height + 1) % U64
                    && block.header.previousId == snapshot.headId
               else block.header.height == 0 && block.header.previousId == ZERO_ID
    ensures status.InvalidArgument? <==> block.header.source == [] || (snapshot.bootstrapped && block.transactions == [])
    ensures !status.Duplicate?
  {
    if block.header.source == [] then InvalidArgument
    else if snapshot.bootstrapped && block.transactions == [] then InvalidArgument
    else if !snapshot.bootstrapped then
      if block.header.height != 0 then Rejected
      else if block.header.previousId != ZERO_ID then Rejected
      else Success
    else if block.header.height != (snapshot.height + 1) % U64 then Rejected
    else if block.header.previousId != snapshot.headId then Rejected
    else Success
  }

  // ----- chains -----

  function TransactionCount(chain: seq<Block>): nat {
    if chain == [] then 0 else TransactionCount(chain[..|chain| - 1]) + |chain[|chain| - 1].transactions|
  }

  // Heights are positions (in 64 bits), each block names its predecessor, the
  // first names none, and no id occurs twice.
  ghost predicate Linked(chain: seq<Block>) {
    && (forall i :: 0 <= i < |chain| ==> chain[i].header.height == i % U64)
    && (forall i :: 0 < i < |chain| ==> chain[i].header.previousId == chain[i - 1].header.id)
    && (|chain| > 0 ==> chain[0].header.previousId == ZERO_ID)
    && (forall i, j :: 0 <= i < j < |chain| ==> chain[i].header.id != chain[j].header.id)
  }

  // The summary of a chain.
  ghost function Summary(chain: seq<Block>): Snapshot {
    if chain == [] then NO_SNAPSHOT
    else
      var last := chain[|chain| - 1].header;
      Snapshot(last.height, last.id, |chain| % U64, TransactionCount(chain) % U64, true)
  }

  // ----- pending transactions -----

  ghost predicate DistinctIds(s: seq<Transaction>) {
    forall i, j :: 0 <= i < j < |s| ==> s[i].id != s[j].id
  }

  predicate HasId(s: seq<Transaction>, id: Id) { exists i :: 0 <= i < |s| && s[i].id == id }

  // remove_if: the transactions whose id the block does not contain
  function Without(pending: seq<Transaction>, block: seq<Transaction>): seq<Transaction> {
    if pending == [] then []
    else
      var n := |pending| - 1;
      Without(pending[..n], block) + (if HasId(block, pending[n].id) then [] else [pending[n]])
  }

  // ----- the ledger: what the kernel and its stores amount to -----

  datatype Ledger = Ledger(chain: seq<Block>, pending: seq<Transaction>)

  const EMPTY: Ledger := Ledger([], [])

  ghost predicate Sound(l: Ledger) { Linked(l.chain) && DistinctIds(l.pending) }

  ghost predicate NewId(chain: seq<Block>, id: Id) {
    forall i :: 0 <= i < |chain| ==> chain[i].header.id != id
  }

  ghost predicate Acceptable(chain: seq<Block>, block: Block) {
    Validate(block, Summary(chain)).Success? && NewId(chain, block.header.id)
  }

  ghost function Commit(l: Ledger, block: Block): Ledger {
    if Acceptable(l.chain, block) then Ledger(l.chain + [block], Without(l.pending, block.transactions)) else l
  }

  predicate Submittable(l: Ledger, t: Transaction) {
    t.kind != [] && t.payload != [] && !HasId(l.pending, t.id)
  }

  function Submit(l: Ledger, t: Transaction): Ledger {
    if Submittable(l, t) then l.(pending := l.pending + [t]) else l
  }

  // Block::MakeNext for the pending transactions on top of the head.
  ghost function NextBlock(l: Ledger, id: Id, timestamp: int, source: string): Block {
    var s := Summary(l.chain);
    Block(Header(id, s.headId, if s.bootstrapped then (s.height + 1) % U64 else 0, timestamp, source), l.pending)
  }

  ghost function CommitAll(l: Ledger, id: Id, timestamp: int, source: string): Ledger {
    if l.pending == [] then l else Commit(l, NextBlock(l, id, timestamp, source))
  }

  lemma {:induction false} WithoutKeeps(pending: seq<Transaction>, block: seq<Transaction>)
    ensures forall t :: t in Without(pending, block) <==> t in pending && !HasId(block, t.id)
    ensures DistinctIds(pending) ==> DistinctIds(Without(pending, block))
  {
    hide HasId;
    if pending != [] {
      var n := |pending| - 1;
      WithoutKeeps(pending[..n], block);
      assert pending == pending[..n] + [pending[n]];
    }
  }

  lemma {:induction false} CommitSound(l: Ledger, block: Block)
    requires Sound(l)
    ensures Sound(Commit(l, block))
  {
    hide Without;
    WithoutKeeps(l.pending, block.transactions);
    var longer := l.chain + [block];
    if l.chain != [] {
      NextHeight(|l.chain| - 1);
    }
  }

  lemma NextHeight(n: nat)
    ensures (n % U64 + 1) % U64 == (n + 1) % U64
  {
  }

  lemma {:induction false} SubmitSound(l: Ledger, t: Transaction)
    requires Sound(l)
    ensures Sound(Submit(l, t))
  {
  }

  // Committing everything pending empties the pending list.
  lemma {:induction false} WithoutSelf(pending: seq<Transaction>, block: seq<Transaction>)
    requires forall t :: t in pending ==> t in block
    ensures Without(pending, block) == []
  {
    if pending != [] {
      var n := |pending| - 1;
      assert pending[n] in block;
      WithoutSelf(pending[..n], block);
    }
  }

  // ----- runs -----

  datatype Event =
    | Submitted(transaction: Transaction)
    | BlockOffered(block: Block)
    | PendingOffered(id: Id, timestamp: int, source: string)

  ghost function Apply(l: Ledger, e: Event): Ledger {
    match e
    case Submitted(t) => Submit(l, t)
    case BlockOffered(b) => Commit(l, b)
    case PendingOffered(id, timestamp, source) => CommitAll(l, id, timestamp, source)
  }

  ghost function Run(l: Ledger, events: seq<Event>): Ledger
    decreases |events|
  {
    if events == [] then l else Apply(Run(l, events[..|events| - 1]), events[|events| - 1])
  }

  // Over every run, blocks offered by anyone included: heights are positions,
  // links and ids are right, and pending ids stay distinct.
  lemma {:induction false} RunSound(l: Ledger, events: seq<Event>)
    requires Sound(l)
    ensures Sound(Run(l, events))
    decreases |events|
  {
    hide Sound, Commit, Submit, NextBlock;
    if events != [] {
      var before := Run(l, events[..|events| - 1]);
      RunSound(l, events[..|events| - 1]);
      match events[|events| - 1]
      case Submitted(t) => SubmitSound(before, t);
      case BlockOffered(b) => CommitSound(before, b);
      case PendingOffered(id, timestamp, source) => CommitSound(before, NextBlock(before, id, timestamp, source));
    }
  }

  // ----- conservation -----

  ghost function Committed(chain: seq<Block>): multiset<Transaction> {
    if chain == [] then multiset{} else Committed(chain[..|chain| - 1]) + multiset(chain[|chain| - 1].transactions)
  }

  ghost function Held(l: Ledger): multiset<Transaction> { Committed(l.chain) + multiset(l.pending) }

  // The transactions a run accepts.
  ghost function Taken(l: Ledger, events: seq<Event>): multiset<Transaction>
    decreases |events|
  {
    if events == [] then multiset{}
    else
      var n := |events| - 1;
      var before := Taken(l, events[..n]);
      if events[n].Submitted? && Submittable(Run(l, events[..n]), events[n].transaction)
      then before + multiset{events[n].transaction} else before
  }

  ghost predicate NoForeignBlocks(events: seq<Event>) {
    forall i :: 0 <= i < |events| ==> !events[i].BlockOffered?
  }

  lemma {:induction false} CommitAllConserves(l: Ledger, id: Id, timestamp: int, source: string)
    ensures Held(CommitAll(l, id, timestamp, source)) == Held(l)
  {
    if l.pending != [] {
      var b := NextBlock(l, id, timestamp, source);
      if Acceptable(l.chain, b) {
        WithoutSelf(l.pending, b.transactions);
        assert (l.chain + [b])[..|l.chain|] == l.chain;
      }
    }
  }

  // On every sound ledger the block of pending transactions is accepted unless
  // there are none, the source is empty or its id is taken; it then is the new
  // head and holds exactly the pending transactions.
  lemma CommitAllIff(l: Ledger, id: Id, timestamp: int, source: string)
    requires Sound(l)
    ensures
      var m := CommitAll(l, id, timestamp, source);
      && (m != l <==> l.pending != [] && source != [] && NewId(l.chain, id))
      && (m != l ==>
            && |m.chain| == |l.chain| + 1 && m.chain[..|l.chain|] == l.chain && m.pending == []
            && var b := m.chain[|l.chain|];
               && b.transactions == l.pending && b.header.id == id && b.header.timestamp == timestamp
               && b.header.source == source && b.header.height == |l.chain| % U64
               && b.header.previousId == (if l.chain == [] then ZERO_ID else l.chain[|l.chain| - 1].header.id))
  {
    hide Without;
    if l.chain != [] { NextHeight(|l.chain| - 1); }
    WithoutSelf(l.pending, l.pending);
  }

  lemma NextHeader(l: Ledger, id: Id, timestamp: int, source: string)
    ensures
      var b, s := NextBlock(l, id, timestamp, source), Summary(l.chain);
      b == Block(Header(id, s.headId, if s.bootstrapped then (s.height + 1) % U64 else 0, timestamp, source), l.pending)
  {
  }

  lemma NextValid(l: Ledger, id: Id, timestamp: int, source: string)
    requires Sound(l) && l.pending != []
    ensures
      var b := NextBlock(l, id, timestamp, source);
      && b.header.id == id
      && Validate(b, Summary(l.chain)) == (if source == [] then InvalidArgument else Success)
      && (Acceptable(l.chain, b) <==> source != [] && NewId(l.chain, id))
  {
    if l.chain != [] { NextHeight(|l.chain| - 1); }
  }

  // A transaction is taken unless a required field is empty or its id is
  // pending; it then waits behind the others.
  lemma SubmitIff(l: Ledger, t: Transaction)
    ensures Submit(l, t).chain == l.chain
    ensures Submit(l, t).pending ==
            if t.kind != [] && t.payload != [] && (forall u :: u in l.pending ==> u.id != t.id)
            then l.pending + [t] else l.pending
  {
    if exists u :: u in l.pending && u.id == t.id {
      var i :| 0 <= i < |l.pending| && l.pending[i].id == t.id;
    }
  }

  lemma {:induction false} SubmitConserves(l: Ledger, t: Transaction)
    ensures Held(Submit(l, t)) == if Submittable(l, t) then Held(l) + multiset{t} else Held(l)
  {
  }

  // With Submit and CommitPending only, pending and committed transactions
  // together are what was there and what was accepted, each as often as it was
  // accepted, whatever is rejected.
  lemma {:induction false} RunConserves(l: Ledger, events: seq<Event>)
    requires NoForeignBlocks(events)
    ensures Held(Run(l, events)) == Held(l) + Taken(l, events)
    decreases |events|
  {
    hide CommitAll, Held, Submit, Submittable;
    if events != [] {
      var n := |events| - 1;
      RunConserves(l, events[..n]);
      var before := Run(l, events[..n]);
      match events[n]
      case Submitted(t) =>
        SubmitConserves(before, t);
      case PendingOffered(id, timestamp, source) => CommitAllConserves(before, id, timestamp, source);
    }
  }

  // ----- what a block from outside can lose -----

  lemma {:induction false} DistinctCounts(s: seq<Transaction>, t: Transaction)
    requires DistinctIds(s)
    ensures multiset(s)[t] <= 1
  {
    if s != [] {
      var n := |s| - 1;
      DistinctCounts(s[..n], t);
      assert s == s[..n] + [s[n]];
      assert s[n] !in s[..n];
    }
  }

  // A block from outside may carry another transaction under a pending id; the
  // pending one is then dropped. A commit loses nothing exactly when the block
  // contains every pending transaction whose id it uses.
  lemma CommitLosesNothingIff(l: Ledger, b: Block)
    requires Sound(l) && Acceptable(l.chain, b)
    ensures Held(l) <= Held(Commit(l, b))
       <==> forall t :: t in l.pending && HasId(b.transactions, t.id) ==> t in b.transactions
  {
    assert (l.chain + [b])[..|l.chain|] == l.chain;
    var kept := Without(l.pending, b.transactions);
    assert Held(Commit(l, b)) == Committed(l.chain) + multiset(b.transactions) + multiset(kept);
    hide Without, HasId, Acceptable, Linked, Committed;
    WithoutKeeps(l.pending, b.transactions);
    if forall t :: t in l.pending && HasId(b.transactions, t.id) ==> t in b.transactions {
      forall t ensures multiset(l.pending)[t] <= multiset(b.transactions)[t] + multiset(kept)[t] {
        DistinctCounts(l.pending, t);
        if t in l.pending { assert t in kept || t in b.transactions; }
      }
    } else {
      var t :| t in l.pending && HasId(b.transactions, t.id) && t !in b.transactions;
      assert t !in kept;
      assert Held(l)[t] > Held(Commit(l, b))[t];
    }
  }

  const GENESIS: Block := Block(Header(1, ZERO_ID, 0, 0, "genesis"), [])

  lemma GenesisOffered()
    ensures Run(EMPTY, [BlockOffered(GENESIS)]) == Ledger([GENESIS], [])
  {
    assert Run(EMPTY, []) == EMPTY;
    assert [BlockOffered(GENESIS)][..0] == [];
    assert [] + [GENESIS] == [GENESIS];
  }

  lemma RunNext(events: seq<Event>, e: Event)
    ensures Run(EMPTY, events + [e]) == Apply(Run(EMPTY, events), e)
  {
    assert (events + [e])[..|events|] == events;
  }

  const OURS: Transaction := Transaction(5, "transfer", "one", "")
  const THEIRS: Transaction := Transaction(5, "transfer", "two", "")
  const PEER_BLOCK: Block := Block(Header(2, 1, 1, 0, "peer"), [THEIRS])

  // It happens: a submitted transaction vanishes when a block with another
  // transaction of the same id is accepted.
  lemma PendingLost()
    ensures
      var events := [BlockOffered(GENESIS)] + [Submitted(OURS)];
      && Run(EMPTY, events) == Ledger([GENESIS], [OURS])
      && Run(EMPTY, events + [BlockOffered(PEER_BLOCK)]) == Ledger([GENESIS, PEER_BLOCK], [])
      && OURS !in Held(Run(EMPTY, events + [BlockOffered(PEER_BLOCK)]))
  {
    hide Run, Commit, Submit, Held;
    GenesisOffered();
    RunNext([BlockOffered(GENESIS)], Submitted(OURS));
    RunNext([BlockOffered(GENESIS)] + [Submitted(OURS)], BlockOffered(PEER_BLOCK));
    OursSubmitted();
    TheirsCommitted();
    OnlyTheirs();
  }

  lemma OursSubmitted()
    ensures Submit(Ledger([GENESIS], []), OURS) == Ledger([GENESIS], [OURS])
  {
    assert [] + [OURS] == [OURS];
  }

  lemma TheirsCommitted()
    ensures Commit(Ledger([GENESIS], [OURS]), PEER_BLOCK) == Ledger([GENESIS, PEER_BLOCK], [])
  {
    assert [GENESIS] + [PEER_BLOCK] == [GENESIS, PEER_BLOCK];
    assert PEER_BLOCK.transactions[0].id == OURS.id && HasId(PEER_BLOCK.transactions, OURS.id);
    assert Without([OURS], PEER_BLOCK.transactions) == [];
    assert Acceptable([GENESIS], PEER_BLOCK);
  }

  lemma OnlyTheirs()
    ensures OURS !in Held(Ledger([GENESIS, PEER_BLOCK], []))
  {
    assert [GENESIS, PEER_BLOCK][..1] == [GENESIS] && [GENESIS][..0] == [];
    assert Committed([GENESIS]) == multiset{};
    assert Committed([GENESIS, PEER_BLOCK]) == multiset{THEIRS};
  }

  // ----- replay -----

  function OnChain(chain: seq<Block>): seq<Transaction> {
    if chain == [] then [] else OnChain(chain[..|chain| - 1]) + chain[|chain| - 1].transactions
  }

  // Everything accepted, in order.
  function Everything(l: Ledger): seq<Transaction> { OnChain(l.chain) + l.pending }

  lemma CommitAllKeepsEverything(l: Ledger, id: Id, timestamp: int, source: string)
    ensures Everything(CommitAll(l, id, timestamp, source)) == Everything(l)
  {
    if l.pending != [] {
      var b := NextBlock(l, id, timestamp, source);
      if Acceptable(l.chain, b) {
        WithoutSelf(l.pending, b.transactions);
        assert (l.chain + [b])[..|l.chain|] == l.chain;
      }
    }
  }

  lemma DistinctNext(s: seq<Transaction>, t: Transaction)
    ensures DistinctIds(s + [t]) <==> DistinctIds(s) && !HasId(s, t.id)
  {
    var r := s + [t];
    assert forall i :: 0 <= i < |s| ==> r[i] == s[i];
    if DistinctIds(r) {
      forall i, j | 0 <= i < j < |s| ensures s[i].id != s[j].id { assert r[i].id != r[j].id; }
      forall i | 0 <= i < |s| ensures s[i].id != t.id { assert r[i].id != r[|s|].id; }
    }
  }

  lemma HasIdConcat(s: seq<Transaction>, t: seq<Transaction>, id: Id)
    ensures HasId(s + t, id) <==> HasId(s, id) || HasId(t, id)
  {
    if HasId(s, id) {
      var i :| 0 <= i < |s| && s[i].id == id;
      assert (s + t)[i].id == id;
    }
    if HasId(t, id) {
      var i :| 0 <= i < |t| && t[i].id == id;
      assert (s + t)[|s| + i].id == id;
    }
  }

  // Submission looks at pending ids only, so an id that is already on the chain
  // is taken again: ids stay distinct exactly when that does not happen.
  lemma SubmitDistinctIff(l: Ledger, t: Transaction)
    ensures DistinctIds(Everything(Submit(l, t)))
       <==> DistinctIds(Everything(l)) && !(Submittable(l, t) && HasId(OnChain(l.chain), t.id))
  {
    hide OnChain, HasId, DistinctIds;
    if Submittable(l, t) {
      assert Everything(Submit(l, t)) == Everything(l) + [t];
      DistinctNext(Everything(l), t);
      HasIdConcat(OnChain(l.chain), l.pending, t.id);
    }
  }

  // Event n is an accepted submission of an id already on the chain.
  ghost predicate Replays(l: Ledger, events: seq<Event>, n: nat)
    requires n < |events|
  {
    && events[n].Submitted?
    && Submittable(Run(l, events[..n]), events[n].transaction)
    && HasId(OnChain(Run(l, events[..n]).chain), events[n].transaction.id)
  }

  // Over every run of Submit and CommitPending: no id is accepted twice, pending
  // or committed, if and only if no accepted submission replays one on the chain.
  lemma {:induction false} RunDistinctIff(l: Ledger, events: seq<Event>)
    requires NoForeignBlocks(events)
    ensures DistinctIds(Everything(Run(l, events)))
       <==> DistinctIds(Everything(l)) && forall n :: 0 <= n < |events| ==> !Replays(l, events, n)
    decreases |events|
  {
    hide DistinctIds, Everything, HasId, OnChain, CommitAll, Submit, Submittable;
    if events != [] {
      var n := |events| - 1;
      var before := Run(l, events[..n]);
      RunDistinctIff(l, events[..n]);
      forall i | 0 <= i < n ensures Replays(l, events, i) == Replays(l, events[..n], i) {
        assert events[..n][..i] == events[..i];
      }
      assert (forall i :: 0 <= i < |events| ==> !Replays(l, events, i))
        <==> (forall i :: 0 <= i < n ==> !Replays(l, events[..n], i)) && !Replays(l, events, n);
      match events[n] {
        case Submitted(t) => SubmitDistinctIff(before, t);
        case PendingOffered(id, timestamp, source) => CommitAllKeepsEverything(before, id, timestamp, source);
      }
    }
  }

  // It happens: submitted and committed twice, the transaction is in two blocks.
  lemma CommittedTwice()
    ensures
      var t := Transaction(5, "transfer", "one", "");
      var once := [BlockOffered(GENESIS)] + [Submitted(t)] + [PendingOffered(2, 0, "self")];
      var twice := once + [Submitted(t)] + [PendingOffered(3, 0, "self")];
      var l := Run(EMPTY, twice);
      |l.chain| == 3 && l.chain[1].transactions == [t] && l.chain[2].transactions == [t] && Sound(l)
  {
    var t := Transaction(5, "transfer", "one", "");
    var start := [BlockOffered(GENESIS)];
    var once := start + [Submitted(t)] + [PendingOffered(2, 0, "self")];
    GenesisOffered();
    RunNext(start, Submitted(t));
    assert [] + [t] == [t];
    RunNext(start + [Submitted(t)], PendingOffered(2, 0, "self"));
    var b := NextBlock(Ledger([GENESIS], [t]), 2, 0, "self");
    assert Acceptable([GENESIS], b);
    WithoutSelf([t], [t]);
    assert Run(EMPTY, once) == Ledger([GENESIS] + [b], []);
    RunNext(once, Submitted(t));
    RunNext(once + [Submitted(t)], PendingOffered(3, 0, "self"));
    var c := NextBlock(Ledger([GENESIS, b], [t]), 3, 0, "self");
    assert Acceptable([GENESIS, b], c);
    EmptySound();
    RunSound(EMPTY, once + [Submitted(t)] + [PendingOffered(3, 0, "self")]);
  }

  lemma EmptySound() ensures Sound(EMPTY) {
  }

  // ----- the stores -----

  ghost function ChainOf(blocks: map<Id, Block>, order: seq<Id>): (chain: seq<Block>)
    requires forall i :: 0 <= i < |order| ==> order[i] in blocks
    ensures |chain| == |order| && forall i :: 0 <= i < |order| ==> chain[i] == blocks[order[i]]
  {
    seq(|order|, i requires 0 <= i < |order| => blocks[order[i]])
  }

  class BlockStore {
    var blocks: map<Id, Block>
    var order: seq<Id>

    ghost predicate Valid()
      reads this
    {
      && (forall i :: 0 <= i < |order| ==> order[i] in blocks && blocks[order[i]].header.id == order[i])
      && (forall i, j :: 0 <= i < j < |order| ==> order[i] != order[j])
      && (forall id :: id in blocks ==> id in order)
    }

    ghost function Contents(): (chain: seq<Block>)
      reads this
      requires Valid()
    {
      ChainOf(blocks, order)
    }

    constructor ()
      ensures Valid() && Contents() == []
    {
      blocks, order := map[], [];
    }

    method PutBlock(block: Block) returns (status: Status)
      requires Valid()
      modifies this
      ensures Valid()
      ensures status.Success? <==> NewId(old(Contents()), block.header.id)
      ensures !status.Success? ==> status == Duplicate
      ensures Contents() == if status.Success? then old(Contents()) + [block] else old(Contents())
    {
      var key := block.header.id;
      ghost var was := Contents();
      if key in blocks {
        var i :| 0 <= i < |order| && order[i] == key;
        assert was[i].header.id == key;
        return Duplicate;
      }
      forall i | 0 <= i < |order| ensures was[i].header.id != key { }
      order := order + [key];
      blocks := blocks[key := block];
      status := Success;
    }

    method GetBlock(id: Id) returns (block: Option<Block>)
      requires Valid()
      ensures block.Some? <==> !NewId(Contents(), id)
      ensures block.Some? ==> block.value in Contents() && block.value.header.id == id
    {
      if id !in blocks {
        forall i | 0 <= i < |order| ensures Contents()[i].header.id != id { }
        return None;
      }
      var i :| 0 <= i < |order| && order[i] == id;
      assert Contents()[i] == blocks[id];
      block := Some(blocks[id]);
    }

    method GetChain() returns (chain: seq<Block>)
      requires Valid()
      ensures chain == Contents()
    {
      chain := [];
      for n := 0 to |order|
        invariant chain == Contents()[..n]
      {
        chain := chain + [blocks[order[n]]];
      }
    }
  }

  class SnapshotStore {
    var snapshot: Option<Snapshot>

    constructor ()
      ensures snapshot == None
    {
      snapshot := None;
    }

    method Save(s: Snapshot)
      modifies this
      ensures snapshot == Some(s)
    {
      snapshot := Some(s);
    }
  }

  // ----- the kernel -----

  function TransactionIds(s: seq<Transaction>): seq<Id> {
    seq(|s|, i requires 0 <= i < |s| => s[i].id)
  }

  // What the snapshot store holds for a stored chain.
  ghost predicate Consistent(chain: seq<Block>, stored: Option<Snapshot>) {
    stored == if chain == [] then None else Some(Summary(chain))
  }

  class Kernel {
    const config: Config
    const blockStore: BlockStore
    const snapshotStore: SnapshotStore
    // MakeId over the text of a block header, and over a transaction's text
    const blockId: (Id, nat, string, seq<Id>) -> Id
    const textId: (string, string, string) -> Id
    var snapshot: Snapshot
    var pending: seq<Transaction>

    // The snapshot, in memory and stored, is the summary of the stored chain.
    ghost predicate Valid()
      reads this, blockStore, snapshotStore
    {
      && blockStore.Valid()
      && Sound(View())
      && snapshot == Summary(View().chain)
      && Consistent(View().chain, snapshotStore.snapshot)
    }

    ghost function View(): Ledger
      reads this, blockStore
      requires blockStore.Valid()
    {
      Ledger(blockStore.Contents(), pending)
    }

    // As Valid, but a chain found in the stores may not have been loaded yet.
    ghost predicate Ready()
      reads this, blockStore, snapshotStore
    {
      && blockStore.Valid()
      && Sound(View())
      && Consistent(View().chain, snapshotStore.snapshot)
      && (snapshot == Summary(View().chain) || snapshot == NO_SNAPSHOT)
    }

    // The stores may hold anything; if they hold a chain and its summary, as
    // another kernel leaves them, the new kernel is ready to load it.
    constructor (config: Config, blockStore: BlockStore, snapshotStore: SnapshotStore,
                 blockId: (Id, nat, string, seq<Id>) -> Id, textId: (string, string, string) -> Id)
      requires blockStore.Valid()
      ensures this.config == config && this.blockStore == blockStore && this.snapshotStore == snapshotStore
      ensures View() == Ledger(blockStore.Contents(), []) && snapshot == NO_SNAPSHOT
      ensures Linked(blockStore.Contents()) && Consistent(blockStore.Contents(), snapshotStore.snapshot) ==> Ready()
      ensures blockStore.Contents() == [] && snapshotStore.snapshot == None ==> Valid() && View() == EMPTY
    {
      this.config, this.blockStore, this.snapshotStore := config, blockStore, snapshotStore;
      this.blockId, this.textId := blockId, textId;
      snapshot, pending := NO_SNAPSHOT, [];
    }

    method SubmitTransaction(t: Transaction) returns (status: Status)
      requires Valid()
      modifies `pending
      ensures Valid() && View() == Submit(old(View()), t)
      ensures status.Success? <==> Submittable(old(View()), t)
      ensures status.InvalidArgument? <==> t.kind == [] || t.payload == []
      ensures !status.Rejected?
    {
      SubmitSound(View(), t);
      if t.kind == [] {
        return InvalidArgument;
      }
      if t.payload == [] {
        return InvalidArgument;
      }
      var i := 0;
      while i < |pending| && pending[i].id != t.id
        invariant i <= |pending| && forall j :: 0 <= j < i ==> pending[j].id != t.id
      {
        i := i + 1;
      }
      if i < |pending| {
        return Duplicate;
      }
      pending := pending + [t];
      status := Success;
    }

    // A rejected block changes nothing.
    method CommitBlock(block: Block) returns (status: Status)
      requires Valid()
      modifies this, blockStore, snapshotStore
      ensures Valid() && View() == Commit(old(View()), block)
      ensures status.Success? <==> Acceptable(old(View()).chain, block)
      ensures status.Duplicate? <==>
                Validate(block, Summary(old(View()).chain)).Success? && !NewId(old(View()).chain, block.header.id)
      ensures !status.Success? && !status.Duplicate? ==> status == Validate(block, Summary(old(View()).chain))
      ensures !status.Success? ==> snapshot == old(snapshot)
    {
      hide Sound, Linked, TransactionCount, Validate, Without, Summary;
      CommitSound(View(), block);
      ghost var chain := View().chain;
      SummaryNext(chain, block);
      status := Validate(block, snapshot);
      if !status.Success? {
        return;
      }
      status := blockStore.PutBlock(block);
      if !status.Success? {
        return;
      }
      snapshot := Snapshot(block.header.height, block.header.id, (snapshot.blockCount + 1) % U64,
                           (snapshot.acceptedTransactions + |block.transactions|) % U64, true);
      EraseCommitted(block.transactions);
      snapshotStore.Save(snapshot);
      status := Success;
    }

    method EraseCommitted(block: seq<Transaction>)
      modifies `pending
      ensures pending == Without(old(pending), block)
    {
      var kept: seq<Transaction> := [];
      for n := 0 to |pending|
        invariant pending == old(pending) && kept == Without(pending[..n], block)
      {
        assert pending[..n + 1][..n] == pending[..n];
        var found := exists i :: 0 <= i < |block| && block[i].id == pending[n].id;
        if !found {
          kept := kept + [pending[n]];
        }
      }
      assert pending[..|pending|] == pending;
      pending := kept;
    }

    // The id MakeNext gives the next block of pending transactions.
    ghost function NextId(l: Ledger, source: string): Id {
      var h := NextBlock(l, 0, 0, source).header;
      blockId(h.previousId, h.height, source, TransactionIds(l.pending))
    }

    method CommitPending(source: string, now: int) returns (status: Status)
      requires Valid()
      modifies this, blockStore, snapshotStore
      ensures Valid()
      ensures View() == CommitAll(old(View()), NextId(old(View()), source), now, source)
      ensures status.Success? <==>
                && old(pending) != []
                && Acceptable(old(View()).chain, NextBlock(old(View()), NextId(old(View()), source), now, source))
      ensures old(pending) == [] ==> status == Rejected
      ensures old(pending) != [] && source == [] ==> status == InvalidArgument
      ensures old(pending) != [] && source != [] && !status.Success? ==> status == Duplicate
      ensures status.Success? ==> pending == [] && |View().chain| == |old(View()).chain| + 1
      ensures !status.Success? ==> View() == old(View())
    {
      hide Sound, Linked, Acceptable, NextBlock, Validate, Summary;
      if pending == [] {
        return Rejected;
      }
      NextValid(View(), NextId(View(), source), now, source);
      var height := if snapshot.bootstrapped then (snapshot.height + 1) % U64 else 0;
      var ids: seq<Id> := [];
      for k := 0 to |pending|
        invariant ids == TransactionIds(pending[..k])
      {
        ids := ids + [pending[k].id];
      }
      assert pending[..|pending|] == pending;
      var id := blockId(snapshot.headId, height, source, ids);
      var block := Block(Header(id, snapshot.headId, height, now, source), pending);
      NextHeader(View(), 0, 0, source);
      NextHeader(View(), id, now, source);
      WithoutSelf(pending, pending);
      status := CommitBlock(block);
    }

    ghost function Genesis(now: int): Block {
      var id := textId("genesis", config.genesisPayload, config.displayName);
      Block(Header(blockId(ZERO_ID, 0, "genesis", [id]), ZERO_ID, 0, now, "genesis"),
            [Transaction(id, "genesis", config.genesisPayload, config.displayName)])
    }

    method Bootstrap(now: int) returns (status: Status)
      requires Ready()
      modifies this, blockStore, snapshotStore
      ensures Valid()
      // an existing chain is loaded, which changes nothing; without a genesis
      // to create nothing happens either
      ensures old(View()).chain != [] || !config.createGenesis ==> status.Success? && View() == old(View())
      ensures old(View()).chain == [] && config.createGenesis ==>
                status.Success? && View() == Commit(old(View()), Genesis(now)) && View().chain == [Genesis(now)]
      ensures old(View()).chain == [] && config.createGenesis ==>
                var b := View().chain[0];
                && b.header.height == 0 && b.header.previousId == ZERO_ID && b.header.source == "genesis" && b.header.timestamp == now
                && |b.transactions| == 1 && b.transactions[0].kind == "genesis"
                && b.transactions[0].payload == config.genesisPayload && b.transactions[0].metadata == config.displayName
    {
      if snapshotStore.snapshot.Some? {
        snapshot := snapshotStore.snapshot.value;
        return Success;
      }
      if !config.createGenesis {
        return Success;
      }
      var id := textId("genesis", config.genesisPayload, config.displayName);
      var t := Transaction(id, "genesis", config.genesisPayload, config.displayName);
      var block := Block(Header(blockId(ZERO_ID, 0, "genesis", [id]), ZERO_ID, 0, now, "genesis"), [t]);
      status := CommitBlock(block);
    }

    method Head() returns (block: Option<Block>)
      requires Valid()
      ensures block == if View().chain == [] then None else Some(View().chain[|View().chain| - 1])
    {
      if !snapshot.bootstrapped {
        return None;
      }
      block := blockStore.GetBlock(snapshot.headId);
      ghost var chain := View().chain;
      ghost var n := |chain| - 1;
      assert chain[n].header.id == snapshot.headId;
      ghost var i :| 0 <= i < |chain| && chain[i] == block.value;
      assert i == n;
    }
  }

  lemma {:induction false} SummaryNext(chain: seq<Block>, block: Block)
    ensures
      var s := Summary(chain);
      Summary(chain + [block]) ==
      Snapshot(block.header.height, block.header.id, (s.blockCount + 1) % U64,
               (s.acceptedTransactions + |block.transactions|) % U64, true)
  {
    assert (chain + [block])[..|chain|] == chain;
    NextHeight(|chain|);
    AddMod(TransactionCount(chain), |block.transactions|);
  }
}
