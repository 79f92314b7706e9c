// Model of HeaderSyncAdapter::ValidateHeader and SubmitHeaders in
// src/Blocxxi/Bitcoin/adapter.cpp. Hashes are byte sequences instead of
// hexadecimal text; an empty one stands for an empty string. What the bound
// node answers to the submitted transactions and commits is a parameter.
module HeaderSync {
  import opened Wrappers
  import opened Bytes
  import opened Target

  const U32: nat := 0x1_0000_0000

  type Word32 = x: nat | x < 0x1_0000_0000

  datatype Header = Header(
    height: Word32, hash: seq<Byte>, previousHash: seq<Byte>, merkleRoot: seq<Byte>,
    version: Word32, timestamp: Word32, bits: Bits, nonce: Word32)

  datatype Status = Success | InvalidArgument | Rejected

  // kSignetPowLimitHex
  const POW_LIMIT: Hash32 := [0x00, 0x00, 0x03, 0x77, 0xae] + Zeros(27)

  // The limit is the target of the bits 0x1e0377ae.
  lemma SignetLimit()
    ensures Denoted(0x1e0377ae) == Number(POW_LIMIT)
  {
    hide Number, Pow256, Zeros;
    var head := [0x00, 0x00, 0x03, 0x77, 0xae];
    HeadNumber(head);
    NumberConcat(head, Zeros(27));
    NumberZeros(27);
  }

  lemma HeadNumber(head: seq<Byte>)
    requires head == [0x00, 0x00, 0x03, 0x77, 0xae]
    ensures Number(head) == 0x377ae
  {
    hide Number;
    NumberNothing();
    assert head[..0] == [] && head[..5] == head;
    NumberStep(head, 1, 0, 0);
    NumberStep(head, 2, 0, 0);
    NumberStep(head, 3, 0, 3);
    NumberStep(head, 4, 3, 0x377);
    NumberStep(head, 5, 0x377, 0x377ae);
  }

  lemma NumberNothing() ensures Number([]) == 0 {
  }

  // ----- what acceptance means -----

  ghost predicate Complete(h: Header) {
    h.hash != [] && (h.height > 0 ==> h.previousHash != [])
  }

  // Proof of work: the hash, as a 256-bit number, is at most the target the
  // bits denote, and that target is at most the limit. Zero bits are exempt.
  ghost predicate Worked(h: Header) {
    h.bits != 0 ==>
      && |h.hash| == 32 && Derivable(h.bits)
      && Number(h.hash) <= Denoted(h.bits) <= Number(POW_LIMIT)
  }

  // Heights are 32-bit and wrap.
  ghost predicate Linked(p: Header, h: Header) { h.height == (p.height + 1) % U32 && h.previousHash == p.hash }

  ghost predicate Follows(p: Header, h: Header) {
    && Linked(p, h)
    && (h.bits != 0 && p.bits != 0 && p.height % 2016 != 0 ==> h.bits == p.bits)
  }

  ghost predicate Acceptable(h: Header, previous: Option<Header>) {
    Complete(h) && Worked(h) && (previous.Some? ==> Follows(previous.value, h))
  }

  // An argument is invalid when a hash is missing, or not 32 bytes long where all
  // that is looked at before is in order.
  method ValidateHeader(h: Header, previous: Option<Header>) returns (status: Status)
    ensures status.Success? <==> Acceptable(h, previous)
    ensures status.InvalidArgument? <==>
              !Complete(h)
              || ((previous.Some? ==> Linked(previous.value, h)) && h.bits != 0 && |h.hash| != 32
                  && Derivable(h.bits) && Denoted(h.bits) <= Number(POW_LIMIT))
  {
    hide Derivable, Denoted, Number, Less;
    if h.hash == [] {
      return InvalidArgument;
    }
    if h.height > 0 && h.previousHash == [] {
      return InvalidArgument;
    }
    if previous.Some? {
      if h.height != (previous.value.height + 1) % U32 {
        return Rejected;
      }
      if h.previousHash != previous.value.hash {
        return Rejected;
      }
    }
    if h.bits != 0 {
      var target := TargetFromCompact(h.bits, POW_LIMIT);
      if target.None? {
        return Rejected;
      }
      if |h.hash| != 32 {
        return InvalidArgument;
      }
      LessIsNumeric(target.value, h.hash);
      if Less(target.value, h.hash) {
        return Rejected;
      }
      if previous.Some? && previous.value.bits != 0 && previous.value.height % 2016 != 0
         && h.bits != previous.value.bits {
        return Rejected;
      }
    }
    return Success;
  }

  // ----- chains -----

  // Each header is acceptable after the one before it.
  ghost predicate Chain(headers: seq<Header>) {
    && (forall i :: 0 <= i < |headers| ==> Complete(headers[i]) && Worked(headers[i]))
    && (forall i :: 0 < i < |headers| ==> Follows(headers[i - 1], headers[i]))
  }

  function Heights(headers: seq<Header>): seq<Word32> {
    seq(|headers|, i requires 0 <= i < |headers| => headers[i].height)
  }

  ghost predicate Consecutive(heights: seq<Word32>) {
    forall i :: 0 <= i < |heights| ==> heights[i] == heights[0] + i
  }

  lemma {:induction false} HeightAt(headers: seq<Header>, i: nat)
    requires Chain(headers) && i < |headers|
    ensures headers[i].height == (headers[0].height + i) % U32
  {
    if i > 0 {
      HeightAt(headers, i - 1);
      assert Follows(headers[i - 1], headers[i]);
    }
  }

  // The heights run without a gap exactly when they do not wrap past 2^32 - 1.
  lemma ConsecutiveIff(headers: seq<Header>)
    requires Chain(headers) && headers != []
    ensures Consecutive(Heights(headers)) <==> headers[0].height + |headers| <= U32
  {
    var heights := Heights(headers);
    forall i | 0 <= i < |headers| ensures heights[i] == (heights[0] + i) % U32 { HeightAt(headers, i); }
    if headers[0].height + |headers| > U32 {
      var i := U32 - headers[0].height;
      assert heights[i] == 0 && heights[0] + i == U32;
    }
  }

  // It happens: without proof of work to show, a header at the last height is
  // followed by one at height 0.
  lemma HeightsWrap()
    ensures
      var last := Header(U32 - 1, [1], [0], [], 0, 0, 0, 0);
      var next := Header(0, [2], [1], [], 0, 0, 0, 0);
      Chain([last, next]) && !Consecutive(Heights([last, next]))
  {
    var headers := [Header(U32 - 1, [1], [0], [], 0, 0, 0, 0), Header(0, [2], [1], [], 0, 0, 0, 0)];
    ConsecutiveIff(headers);
  }

  class HeaderSyncAdapter {
    var bound: bool
    var importedHeights: seq<Word32>
    var lastHeader: Option<Header>

    // every header of a successful call, in order
    ghost var accepted: seq<Header>

    ghost predicate Valid()
      reads this
    {
      && Chain(accepted)
      && importedHeights == Heights(accepted)
      && lastHeader == LastOf(accepted)
    }

    constructor ()
      ensures Valid() && accepted == [] && !bound
    {
      bound, importedHeights, lastHeader, accepted := false, [], None, [];
    }

    method Bind()
      requires Valid()
      modifies `bound
      ensures Valid() && bound
    {
      bound := true;
    }

    // `nodeAccepts[i]` is whether the node takes and commits the i-th header's
    // transaction. Nothing but the node changes unless the whole call succeeds.
    method SubmitHeaders(headers: seq<Header>, nodeAccepts: seq<bool>) returns (status: Status)
      requires Valid() && |nodeAccepts| == |headers|
      modifies `importedHeights, `lastHeader, `accepted
      ensures Valid()
      ensures status.Success? <==>
                bound && headers != [] && Chain(old(accepted) + headers) && (forall i :: 0 <= i < |headers| ==> nodeAccepts[i])
      ensures accepted == if status.Success? then old(accepted) + headers else old(accepted)
      ensures !bound ==> status == Rejected
      ensures bound && headers == [] ==> status == InvalidArgument
      ensures bound && headers != [] && Chain(old(accepted) + headers) && !status.Success? ==> status == Rejected
    {
      if !bound {
        return Rejected;
      }
      if headers == [] {
        return InvalidArgument;
      }
      status := ValidateAll(headers);
      if !status.Success? {
        return status;
      }
      var imported: seq<Word32> := [];
      for i := 0 to |headers|
        invariant imported == Heights(headers[..i])
        invariant forall j :: 0 <= j < i ==> nodeAccepts[j]
      {
        if !nodeAccepts[i] {
          return Rejected;
        }
        imported := imported + [headers[i].height];
      }
      assert headers[..|headers|] == headers;
      importedHeights := importedHeights + imported;
      lastHeader := Some(headers[|headers| - 1]);
      accepted := accepted + headers;
      status := Success;
    }

    // The validation pass: each header against the one before it.
    method ValidateAll(headers: seq<Header>) returns (status: Status)
      requires Valid()
      ensures status.Success? <==> Chain(accepted + headers)
    {
      hide Chain, Acceptable, Heights;
      status := Success;
      var previous := lastHeader;
      assert accepted + headers[..0] == accepted;
      for i := 0 to |headers|
        invariant status.Success? && Chain(accepted + headers[..i])
        invariant previous == LastOf(accepted + headers[..i])
      {
        ghost var before := accepted + headers[..i];
        assert accepted + headers[..i + 1] == before + [headers[i]];
        ChainExtends(before, headers[i]);
        status := ValidateHeader(headers[i], previous);
        if !status.Success? {
          ChainPrefix(accepted + headers, |accepted| + i + 1);
          assert (accepted + headers)[..|accepted| + i + 1] == before + [headers[i]];
          return status;
        }
        previous := Some(headers[i]);
      }
      assert headers[..|headers|] == headers;
    }
  }

  ghost function LastOf(chain: seq<Header>): Option<Header> {
    if chain == [] then None else Some(chain[|chain| - 1])
  }

  lemma ChainExtends(chain: seq<Header>, h: Header)
    requires Chain(chain)
    ensures Chain(chain + [h]) <==> Acceptable(h, LastOf(chain))
  {
    hide Complete, Worked, Follows;
    var longer := chain + [h];
    assert longer[|chain|] == h;
    if chain != [] { assert longer[|chain| - 1] == chain[|chain| - 1]; }
    forall i | 0 <= i < |chain| ensures longer[i] == chain[i] { }
  }

  lemma ChainPrefix(chain: seq<Header>, n: nat)
    requires n <= |chain|
    ensures Chain(chain) ==> Chain(chain[..n])
  {
    hide Complete, Worked, Follows;
  }
}
