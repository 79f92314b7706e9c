# Blocxxi and Nova: a verified model

This project models the stateful and arithmetic core of the repository in Dafny
and proves what that core promises:

- **Resource table** (`ResourceHandle`, `ResourceSlots`, `DenseOrder`,
  `ResourceTable`): the packed 64-bit handle, the sparse, dense and meta arrays
  with the freelist threaded through them, and the defragmenter. The arrays
  refine a map from (slot, generation) to item, and every theorem about handles
  is proved over runs of that map.
- **SHA-256** (`Compression`, `Sha256`, `Sha256Constants`, `Sha256Example`): the
  unrolled compression function, the streaming hasher, the origin of the constants
  and a digest worked out in full.
- **Bitcoin** (`CompactSize`, `BlockWire`, `BlockParser`, `BlockRoundTrip`,
  `BlockMetadata`, `Merkle`, `Target`, `HeaderSync`, `HeadersPayload`): wire parsing, txid and
  wtxid, Merkle root, compact targets, header acceptance.
- **Wire stack** (`Bencode`, `BencodeMachine`, `BencodeCanonical`, `Krpc`,
  `KrpcExamples`, `EventRecord`, `EventStore`): printers and parsers that are inverse, one on top
  of the other, and the event store.
- **Mainline DHT node** (`Requests`, `PeerStore`, `MainlineNode`): the
  asynchronous request protocol and the token-gated peer store, as step
  functions over arbitrary event sequences, and the class that refines both.
- **Chain kernel** (`Kernel`): kernel and in-memory stores.
- **Identifiers** (`Uuid`, `UuidText`, `LeadingZeros`, `NodeId`): UUIDv7
  generation and text, XOR distance and leading-zero counts.
- `Bytes`, `Modular`, `Slices` and `Wrappers` hold what several modules share.

Code that updates objects in place is modelled by classes and loops; each such
method is tied by its `ensures` to a function on values, and the properties are
lemmas about that function. A ghost field of a class records the history its
invariant speaks about (bytes absorbed, events seen, headers accepted).

`dafny verify dfyconfig.toml` verifies everything.

## Where the code does not do what one would expect

- `Defragment` is documented to order items by `comp`. It moves an item left
  past every neighbour for which `comp(neighbour, item)` holds, so the items end
  in the reverse order (`DenseOrder.SweepSettles`, `DenseOrder.AscendingReversed`);
  from a fragmented table swept without a limit the documented order comes out
  only when nothing is comparable (`DenseOrder.DocumentedOrderIff`). A table not
  marked as fragmented is left as it is whatever `comp` is, so it shows the
  documented order if it had it before the call. A fragmented table that is
  empty stays marked as fragmented.
- With a swap limit, the element-by-element branch of `Defragment` can clear the
  fragmented flag while the items are out of order (`DenseOrder.CutShort`), for
  exactly the limits given in `DenseOrder.LimitedFlagTruthfulIff`.
- `LogDistanceTo` is documented to return -1 for equal ids. The result type is
  unsigned, so it returns 2^64 - 1 (`NodeId.LogDistanceTo`).
- One recorded peer that is not IPv4 makes every later `get_peers` for its info
  hash go unanswered, because the encoder throws (`PeerStore.V6PeerSilences`). So
  do too many peers, because the channel sends nothing above 1452 bytes and the
  answering side ignores that (`PeerStore.CrowdSilences`).
  `PeerStore.GetPeersAnsweredIff` is the exact condition.
- `announce_peer` accepts info hashes of any length, and one that is not 20 bytes
  long makes the samples unreadable (`PeerStore.SamplesSplitIff`,
  `PeerStore.ShortInfoHash`).
- Header heights are compared modulo 2^32, so a chain can continue past
  2^32 - 1 at height 0 (`HeaderSync.ConsecutiveIff`, `HeaderSync.HeightsWrap`).
- A block from outside whose transaction has the id of a pending one but another
  content drops the pending one (`Kernel.CommitLosesNothingIff`, `Kernel.PendingLost`).
- `SubmitTransaction` compares ids with pending ones only, so a committed
  transaction can be submitted and committed again (`Kernel.RunDistinctIff`,
  `Kernel.CommittedTwice`).
- UUIDs show the timestamp modulo 2^48 only. A thread that counts past 2^48 makes
  a smaller one (`Uuid.OverrunLosesOrder`), a thread that jumps past it may not
  (`Uuid.JumpRises`); `Uuid.RunIncreasesIff` is the exact condition.
- The Merkle verdict does not notice a repeated last transaction
  (`BlockRoundTrip.RepeatedTransactionUnseen`). Without hash collisions it notices
  exactly the differences given in `BlockRoundTrip.VerdictIff`.
- A bencode string length close to 2^64 wraps the bounds check, and the list loop
  can then run for ever (`BencodeMachine.StringArithmetic`,
  `BencodeMachine.LoopsForever`); without such a length the decoder ends and is
  the one on mathematical integers (`BencodeMachine.ValueAgrees`).
- The bencode decoder accepts texts that are no encodings;
  `BencodeCanonical.EncodingIff` says which.

## Model

| member | source | states |
|---|---|---|
| ResourceHandle.SettersUpdateRecord | src/Nova/Base/ResourceHandle.h:287-377 | The setters for index, type, custom, reserved and free flag each update their own field of the unpacked handle and leave every other field as it was, for all 64-bit words. |
| ResourceHandle.SetGenerationSplit | src/Nova/Base/ResourceHandle.h:341-351 | Setting a generation up to 4095 changes the generation field and nothing else. |
| ResourceHandle.NextGenerationSplit | src/Nova/Base/ResourceHandle.h:353-363 | NewGeneration replaces the generation field by its successor and keeps the other five fields. |
| ResourceHandle.NextInRange | src/Nova/Base/ResourceHandle.h:353-363 | The successor stays within twelve bits: it is the next number, and 0 after 4095. |
| ResourceHandle.NextGenerationUpdatesRecord | src/Nova/Base/ResourceHandle.h:353-363 | On the unpacked handle NewGeneration is the generation step of the record, the one the table works with. |
| ResourceHandle.SetGenerationUpdatesRecord | src/Nova/Base/ResourceHandle.h:341-351 | On the unpacked handle SetGeneration is an update of that one field. |
| ResourceHandle.ConstructMakesRecord | src/Nova/Base/ResourceHandle.h:203-212 | A constructed handle unpacks to the record with that index and type and nothing else set. |
| ResourceHandle.ConstructSplit | src/Nova/Base/ResourceHandle.h:203-212 | A new handle holds the given index and type, and zero in every other field. |
| ResourceHandle.SplitInjective | src/Nova/Base/ResourceHandle.h:280-375 | The six fields together determine the word, so handle equality is equality of fields. |
| ResourceHandle.Layout | src/Nova/Base/ResourceHandle.h:66-82 | The word is the six fields at bits 0, 32, 44, 52, 60 and 61. |
| ResourceHandle.InRangeIff | src/Nova/Base/ResourceHandle.h:67-82 | A record is in the ranges the bit widths allow if and only if it is the reading of a 64-bit word, and then of exactly one. |
| ResourceSlots.ApplyWellFormed | src/Nova/Base/ResourceTable.h:389-545 | Every operation keeps the abstract table sound: the free queue holds exactly the slots that are not live, each once. |
| ResourceSlots.InsertBinds | src/Nova/Base/ResourceTable.h:389-444 | The handle returned resolved to nothing before, resolves to the item afterwards, and every other handle resolves to what it did before. |
| ResourceSlots.EraseUnbinds | src/Nova/Base/ResourceTable.h:446-495 | Erase removes exactly one binding; all other handles keep resolving to their own items. A handle that does not resolve changes nothing. |
| ResourceSlots.WaitsItsTurn | src/Nova/Base/ResourceTable.h:393-412 | A free slot with k others before it is used by the insertion after the next k, over every run without Clear and Reset. |
| ResourceSlots.ErasedLast | src/Nova/Base/ResourceTable.h:471-479 | An erased slot goes behind all slots that are free already. |
| ResourceSlots.ClearInOrder | src/Nova/Base/ResourceTable.h:507-525 | After Clear the slots are used in index order. |
| ResourceSlots.InsertedGeneration | src/Nova/Base/ResourceTable.h:393-420 | A new slot starts at generation 0 and is taken exactly when no slot is free; a reused one keeps the generation it was advanced to. |
| ResourceSlots.RunTracks | src/Nova/Base/ResourceTable.h:389-545 | Over every run without Reset, a slot that still has the generation count of an insertion still holds the item then inserted. |
| ResourceSlots.StaleHandlesDoNotResolve | src/Nova/Base/ResourceTable.h:463-522 | Over every run without Reset: a handle resolves to its item until its slot is advanced, then to nothing while fewer than 4096 advances have happened, and later only at multiples of 4096. |
| ResourceSlots.GenerationWraps | src/Nova/Base/ResourceHandle.h:353-363 | The bound of 4096 is exact: after 4096 advances an old handle resolves again, to the new item of the slot. |
| ResourceTable.Table.ViewWellFormed | src/Nova/Base/ResourceTable.h:389-614 | In every valid table the freelist visits exactly the free slots once each, live slots are as many as items, and sparse size = items + free slots. |
| ResourceTable.Table.SparseInRange | src/Nova/Base/ResourceTable.h:389-614 | In every valid table of an 8-bit type all sparse entries are in range, hence 64-bit words. |
| ResourceTable.Table.constructor | src/Nova/Base/ResourceTable.h:103-111 | An empty, valid table. |
| ResourceTable.Table.Contains | src/Nova/Base/ResourceTable.h:319-336 | True exactly for handles of the table's type whose slot is live with the generation of the handle. |
| ResourceTable.Table.TryGet | src/Nova/Base/ResourceTable.h:282-317 | Returns an item exactly when Contains holds, and then the one the abstract table binds to the handle. |
| ResourceTable.Table.GetInnerIndex | src/Nova/Base/ResourceTable.h:339-366 | Succeeds exactly when Contains holds, and gives the dense position of the item TryGet returns; each of the five errors is raised exactly for the handles it names. |
| ResourceTable.Table.Insert | src/Nova/Base/ResourceTable.h:389-444 | Both branches (reused slot, fresh slot) perform the abstract insertion, append the item, and return the handle bound to it; the array and freelist invariants are kept. |
| ResourceTable.Table.Erase | src/Nova/Base/ResourceTable.h:446-495 | Performs the abstract erase despite swap-and-pop, returns 1 exactly when the handle was contained, marks the table as fragmented exactly then, puts the last item in the place of the erased one, and keeps the array and freelist invariants. |
| ResourceTable.Table.PushFree | src/Nova/Base/ResourceTable.h:463-479 | A live slot goes to the back of the freelist with its generation advanced; the chain stays acyclic and no live slot changes. |
| ResourceTable.Table.SwapAndPop | src/Nova/Base/ResourceTable.h:481-492 | The last item takes the erased place and its sparse entry follows it; free entries and generations are untouched. |
| ResourceTable.Table.EraseItems | src/Nova/Base/ResourceTable.h:497-505 | The effect of erasing the handles one by one; the count is the number of items that disappeared, and the table is marked as fragmented exactly when there are some. |
| ResourceTable.Table.Clear | src/Nova/Base/ResourceTable.h:507-525 | Every slot becomes free in index order with its generation advanced, no item is left, and the table is not fragmented unless it had no slots. |
| ResourceTable.Table.Reset | src/Nova/Base/ResourceTable.h:527-545 | Back to the empty table. |
| ResourceTable.Table.Defragment | src/Nova/Base/ResourceTable.h:553-614 | Every handle binding survives and the items are permuted. In both branches, with and without a limit, items, meta and the returned count are those of the corresponding sweep function; the fragmented flag stays set exactly for an empty table or when the limit was used up before the last insertion; the block-move branch clears it only after the full sweep. |
| ResourceTable.EraseThenDefragment | src/Nova/Base/ResourceTable.h:446-614 | After any call that erased something, an unlimited Defragment leaves no earlier item `comp`-before a later one, for every strict weak order. |
| ResourceTable.InsertThenDefragment | src/Nova/Base/ResourceTable.h:389-614 | So it does after an insertion. |
| ResourceTable.Table.Sink | src/Nova/Base/ResourceTable.h:566-608 | One turn of the outer loop performs one insertion in items, meta and sparse together and changes no binding. |
| ResourceTable.Table.SinkByBlockMove | src/Nova/Base/ResourceTable.h:569-588 | The memmove branch rotates items and meta alike to where the scan stops. |
| ResourceTable.Table.SinkOneByOne | src/Nova/Base/ResourceTable.h:589-605 | The element-by-element branch rotates items and meta alike to where the scan or the swap limit stops it, and counts the swaps. |
| DenseOrder.SweepSettles | src/Nova/Base/ResourceTable.h:553-614 | For every strict weak order the full sweep leaves the items so that no earlier one is `comp`-before a later one. |
| DenseOrder.SweepPermutes | src/Nova/Base/ResourceTable.h:553-614 | The full sweep permutes the items. |
| DenseOrder.DocumentedOrderIff | src/Nova/Base/ResourceTable.h:553-614 | The documented order (no later item `comp`-before an earlier one) comes out if and only if no two items of the table are comparable at all. |
| DenseOrder.AscendingReversed | src/Nova/Base/ResourceTable.h:553-614 | A concrete case: two ascending items come out descending. |
| DenseOrder.MovesAreInversions | src/Nova/Base/ResourceTable.h:564-608 | The swaps counted without a limit are the inversions of the unsorted items, and the block moves the items that have an earlier one `comp`-before them. |
| DenseOrder.RotateSettles | src/Nova/Base/ResourceTable.h:566-588 | Inserting one more item into an ordered prefix where the scan stops gives an ordered longer prefix. |
| DenseOrder.LimitedSweepSettlesIff | src/Nova/Base/ResourceTable.h:589-611 | With a swap limit the element-by-element branch leaves the items in order if and only if the unsorted items have no more inversions than the limit. |
| DenseOrder.LimitedFlagTruthfulIff | src/Nova/Base/ResourceTable.h:589-611 | Under a limit the element-by-element branch clears the flag only over ordered items if and only if the limit is not strictly between the inversions of the items without the last one and those of all items. |
| DenseOrder.BlockSweepSettlesIff | src/Nova/Base/ResourceTable.h:572-588 | With a limit the block-move branch leaves the items in order if and only if no more items than the limit have an earlier one `comp`-before them. |
| DenseOrder.BlockFlagTruthful | src/Nova/Base/ResourceTable.h:572-611 | The block-move branch clears the flag only when its limited sweep is the full sweep. |
| DenseOrder.LimitedSweepPermutes | src/Nova/Base/ResourceTable.h:589-611 | With a limit the items are still permuted. |
| DenseOrder.BeyondLimit | src/Nova/Base/ResourceTable.h:589-611 | When the limit is too small it is used up exactly and some adjacent pair is left in the wrong order. |
| DenseOrder.WithinLimit | src/Nova/Base/ResourceTable.h:589-611 | When the limit suffices the limited sweep is the full sweep. |
| DenseOrder.CutShort | src/Nova/Base/ResourceTable.h:589-611 | A concrete case in which the last insertion is cut short and the flag is cleared although the items are not in order. |
| Compression.CompressUnrolled | src/Nova/Base/Sha256.cpp:325-373 | The loop unrolled eight rounds at a time computes the compression function defined round by round as in section 6.2.2 of FIPS 180-4. |
| Compression.ExpandSchedule | src/Nova/Base/Sha256.cpp:325-345 | The expanded array holds the 64 words of the recursive message schedule. |
| Compression.FoldConcat | src/Nova/Base/Sha256.cpp:325-373 | Folding blocks in two portions is folding them in one. |
| Sha256.PadZerosIsLeast | src/Nova/Base/Sha256.cpp:278-300 | The number of zero bytes padded is the least that puts the length field at the end of a block (section 5.1.1 of FIPS 180-4). |
| Sha256.BigEndian64IsNumber | src/Nova/Base/Sha256.cpp:278-300 | The eight length bytes read as a big-endian number are the length. |
| Sha256.Hasher.constructor | src/Nova/Base/Sha256.cpp:236-310 | A fresh hasher has absorbed nothing. |
| Sha256.Hasher.Update | src/Nova/Base/Sha256.cpp:236-276 | Appends the bytes to what has been absorbed and keeps state and buffer the folded and the pending part of it. |
| Sha256.Hasher.FillBuffer | src/Nova/Base/Sha256.cpp:246-261 | Completing the buffer loses and reorders no byte. |
| Sha256.Hasher.WholeBlocks | src/Nova/Base/Sha256.cpp:263-269 | Folding whole blocks straight from the input leaves less than a block and agrees with buffering them. |
| Sha256.Hasher.FlushBlock | src/Nova/Base/Sha256.cpp:254-261 | A full buffer is folded into the state. |
| Sha256.Hasher.ProcessBlocks | src/Nova/Base/Sha256.cpp:312-373 | The block loop is the fold of the compression function. |
| Sha256.Hasher.Finalize | src/Nova/Base/Sha256.cpp:278-310 | Returns the digest of everything absorbed, as padded in section 5.1.1 of FIPS 180-4 (length modulo 2^64 bits), in one or two final blocks, and leaves the hasher equal to a fresh one. |
| Sha256.HashChunks | src/Nova/Base/Sha256.cpp:236-310 | For every way of cutting a message into Update calls the digest is that of the whole message. |
| Sha256.Compute | src/Nova/Base/Sha256.cpp:597-602 | The one-shot function gives the same digest. |
| Sha256Example.DigestExample | src/Nova/Base/Sha256.cpp:325-373 | The digest of "abc" is the one given in appendix B.1 of FIPS 180-2, worked out over all 64 rounds. |
| Sha256Constants.RoundConstantsAreRoots | src/Nova/Base/Sha256.cpp:31-97 | Every round constant is the first 32 bits of the fractional part of the cube root of the prime in its place. |
| Sha256Constants.PrimesInOrder | src/Nova/Base/Sha256.cpp:31-97 | The primes meant are the first 64, in order. |
| Sha256Constants.InitialStateIsRoots | src/Nova/Base/Sha256.cpp:99-109 | The initial state is the first 32 bits of the fractional parts of the square roots of the first eight primes. |
| Merkle.ComputeRoot | src/Blocxxi/Bitcoin/adapter.cpp:96-135 | Fails exactly for no ids or an id that is not 32 bytes; otherwise equals the recursive tree that duplicates the last node of each odd layer, for any hash function. |
| Merkle.NextLayer | src/Blocxxi/Bitcoin/adapter.cpp:114-132 | One pass turns a layer of the tree into the next one. |
| Merkle.TopIsSingle | src/Blocxxi/Bitcoin/adapter.cpp:114-133 | The layers shrink to a single node, at the height of the tree. |
| Merkle.SmallRoots | src/Blocxxi/Bitcoin/adapter.cpp:114-133 | One id is its own root, two are hashed left before right, and of three the last is paired with itself. |
| Merkle.RootIgnoresRepeat | src/Blocxxi/Bitcoin/adapter.cpp:114-133 | A list of odd length above one and the list with its last id repeated have the same root, for any hash function. |
| Merkle.RootDetermines | src/Blocxxi/Bitcoin/adapter.cpp:96-135 | For trees of one height without a colliding pair of inner nodes, the roots are equal if and only if the lists have the same id at every one of the 2^height leaf positions, a missing right child being read as its left sibling. |
| Merkle.RootDeterminesList | src/Blocxxi/Bitcoin/adapter.cpp:96-135 | Under the same condition, lists of one length have the same root if and only if they are equal. |
| Merkle.RootDeterminesAcross | src/Blocxxi/Bitcoin/adapter.cpp:96-135 | For trees of different heights the same holds with a layer of inner nodes of the higher tree in the place of its leaves. |
| CompactSize.CompactRoundTrip | src/Blocxxi/Bitcoin/adapter.cpp:145-189 | Whatever surrounds it, an encoded size is read back and the offset moves exactly past it. |
| CompactSize.KnownSizes | src/Blocxxi/Bitcoin/adapter.cpp:145-164 | The encodings at the bounds of the four forms. |
| CompactSize.ReadCompactSize | src/Blocxxi/Bitcoin/adapter.cpp:166-189 | The reader with its byte loop computes the little-endian value and fails exactly on truncated input. |
| CompactSize.ReadLittle | src/Blocxxi/Bitcoin/adapter.cpp:183-187 | The byte loop, which puts each byte above the ones read, computes the little-endian number. |
| BlockParser.ParseBlockMetadata | src/Blocxxi/Bitcoin/adapter.cpp:575-730 | The parser with its nested loops refines the recursive parse, on every payload. |
| BlockParser.ReadLayout | src/Blocxxi/Bitcoin/adapter.cpp:619-695 | Finds the sections of one transaction, or fails, as the recursive definition does. |
| BlockParser.ReadInputs | src/Blocxxi/Bitcoin/adapter.cpp:641-653 | The input loop skips the given number of inputs or fails. |
| BlockParser.SumOutputs | src/Blocxxi/Bitcoin/adapter.cpp:655-675 | The output loop skips the outputs and adds their values in 64 bits, or fails. |
| BlockParser.ReadStacks | src/Blocxxi/Bitcoin/adapter.cpp:677-690 | The witness loop skips one stack per input or fails. |
| BlockParser.ReadItems | src/Blocxxi/Bitcoin/adapter.cpp:683-689 | The inner witness loop skips the items of one stack or fails. |
| BlockParser.SkipArithmetic | src/Blocxxi/Bitcoin/adapter.cpp:603-609 | The 64-bit bounds check agrees with the one of the model exactly when offset + count does not wrap; a sum that wraps passes it and moves the offset back. |
| BlockRoundTrip.BlockParses | src/Blocxxi/Bitcoin/adapter.cpp:575-730 | For every well-formed block, with or without trailing bytes, the parser succeeds and assembles the columns of its transactions and header; BlockMetadata says what they are. |
| BlockMetadata.HeaderColumns | src/Blocxxi/Bitcoin/adapter.cpp:580-619 | For every well-formed block the parser reports version, time, nonce, previous hash, Merkle root and hash of its header, the number of its transactions, their total output value modulo 2^64, and whether the root over the hashes of the stripped transactions is the one in the header. |
| BlockMetadata.TransactionColumns | src/Blocxxi/Bitcoin/adapter.cpp:695-721 | And for each transaction its version, size, witness flag, input and output counts, output total modulo 2^64, the hash of its stripped form and the hash of its full form. |
| BlockWire.KnownTransaction | src/Blocxxi/Bitcoin/adapter.cpp:619-695 | The serialization of a transaction with one input, one output and one witness item, byte by byte, in full and stripped. |
| BlockRoundTrip.TransactionsParse | src/Blocxxi/Bitcoin/adapter.cpp:619-721 | The same for any run of transactions at any offset. |
| BlockRoundTrip.LayoutParses | src/Blocxxi/Bitcoin/adapter.cpp:619-695 | The sections found are those the serialization has. |
| BlockRoundTrip.DescribeParsed | src/Blocxxi/Bitcoin/adapter.cpp:695-721 | The bytes hashed for the txid are exactly the witness-stripped serialization, those for the wtxid the full one. |
| BlockRoundTrip.MarkerRecognised | src/Blocxxi/Bitcoin/adapter.cpp:629-633 | The witness marker is recognised exactly when the transaction has witness data. |
| BlockWire.OutputTotalIsSum | src/Blocxxi/Bitcoin/adapter.cpp:661-674 | The running 64-bit total is the sum of the output values modulo 2^64. |
| BlockRoundTrip.ValueTotalIsSum | src/Blocxxi/Bitcoin/adapter.cpp:661-702 | The block total is the sum over all transactions modulo 2^64. |
| BlockRoundTrip.WitnessChangesNoId | src/Blocxxi/Bitcoin/adapter.cpp:575-730 | Blocks that differ only in witness data have the same txids and the same Merkle verdict. |
| BlockRoundTrip.RepeatedTransactionUnseen | src/Blocxxi/Bitcoin/adapter.cpp:575-730 | A block with an odd number of transactions above one and the same block with its last transaction repeated are both parsed, with the same Merkle verdict. |
| BlockRoundTrip.VerdictIff | src/Blocxxi/Bitcoin/adapter.cpp:575-730 | Of two blocks under one header, the first confirmed and no collision between their trees: with trees of one height the second is confirmed if and only if it has the same txid at every leaf position, and with one number of transactions if and only if its txids are the same. |
| Target.TargetFromCompact | src/Blocxxi/Bitcoin/adapter.cpp:235-271 | Succeeds exactly for non-negative, nonzero bits with exponent at most 32 whose target does not exceed the limit; the bytes are then mantissa * 256^(exponent - 3) as a number. |
| Target.ShiftDownIsFloor | src/Blocxxi/Bitcoin/adapter.cpp:246-251 | For small exponents the mantissa is divided and rounded down. |
| Target.CompactFields | src/Blocxxi/Bitcoin/adapter.cpp:239-243 | Exponent, sign and mantissa are the digits of the compact form, the exponent in the highest byte. |
| HeaderSync.SignetLimit | src/Blocxxi/Bitcoin/adapter.cpp:235-271 | The limit is the target of the bits 0x1e0377ae. |
| HeaderSync.ValidateHeader | src/Blocxxi/Bitcoin/adapter.cpp:1122-1166 | Success exactly for complete headers that follow the previous one and whose hash is at most their target, which is at most the limit, as 256-bit numbers; an invalid argument exactly for a missing hash, or one of the wrong size where all else before is in order; otherwise rejected. |
| HeaderSync.HeaderSyncAdapter.SubmitHeaders | src/Blocxxi/Bitcoin/adapter.cpp:998-1044 | Success exactly when a node is bound, the list is not empty, the accepted headers extended by the list form a chain, and the node takes all of it; otherwise no header is recorded. Over every run `imported_heights_` and the last header are those of the chain. |
| HeaderSync.HeaderSyncAdapter.ValidateAll | src/Blocxxi/Bitcoin/adapter.cpp:1010-1016 | The validation pass succeeds exactly when the extended list is a chain. |
| HeaderSync.HeightAt | src/Blocxxi/Bitcoin/adapter.cpp:1122-1166 | Along a chain heights count up from the first one, modulo 2^32. |
| HeaderSync.ConsecutiveIff | src/Blocxxi/Bitcoin/adapter.cpp:1122-1166 | The heights are consecutive if and only if they do not pass 2^32 - 1. |
| HeaderSync.HeightsWrap | src/Blocxxi/Bitcoin/adapter.cpp:1122-1166 | A concrete accepted chain whose heights are 2^32 - 1 and 0. |
| HeadersPayload.ParseHeadersPayload | src/Blocxxi/Bitcoin/adapter.cpp:503-557 | The loop refines the recursive parse on every payload; headers read before a failure stay in the output, and the second output gains exactly their hashes. |
| HeadersPayload.PayloadParses | src/Blocxxi/Bitcoin/adapter.cpp:503-557 | Every non-empty list of wire headers, with or without trailing bytes, is parsed into those headers, with hashes in display order and heights counting up from the locator. |
| HeadersPayload.ParsedColumns | src/Blocxxi/Bitcoin/adapter.cpp:529-553 | Each parsed header has the fields of the header on the wire, hashes in display order, and the height of its place behind the locator. |
| HeadersPayload.KnownHeader | src/Blocxxi/Bitcoin/adapter.cpp:521-536 | The 80 bytes of a header with the numbers of the Bitcoin genesis block. |
| HeadersPayload.ParsedChainIff | src/Blocxxi/Bitcoin/adapter.cpp:503-557 | Parsed headers form an acceptable chain if and only if the headers on the wire name each other's hashes, keep their bits where required, and have the work their bits ask for. |
| HeadersPayload.NumberOfReversed | src/Blocxxi/Bitcoin/adapter.cpp:537-540 | A hash in display order, read big-endian, is the wire hash read little-endian. |
| Bencode.RoundTrip | src/Blocxxi/Codec/bencode.cpp:38-141 | Decoding where an encoding stands, whatever surrounds it, returns the value and stops exactly behind it, for every value tree. |
| Bencode.DecodeEncode | src/Blocxxi/Codec/bencode.cpp:242-257 | Decode(Encode(v)) = v. |
| Bencode.EncodePrefixFree | src/Blocxxi/Codec/bencode.cpp:242-247 | No encoding is a proper prefix of another, and equal encodings come from equal values. |
| Bencode.FirstKeyWins | src/Blocxxi/Codec/bencode.cpp:72-86 | Of two dictionary entries with one key the first stays. |
| BencodeCanonical.EncodingIff | src/Blocxxi/Codec/bencode.cpp:16-141 | An accepted text is the encoding of the value it decodes to if and only if its numbers have no redundant zeros or signs and the keys of its dictionaries strictly ascend. |
| BencodeCanonical.CanonicalIsEncoded | src/Blocxxi/Codec/bencode.cpp:38-141 | A canonical value at any offset of any text is the encoding of what is decoded there. |
| BencodeCanonical.EncodedIsCanonical | src/Blocxxi/Codec/bencode.cpp:112-141 | An encoding is canonical wherever it stands. |
| BencodeCanonical.NegativeZero | src/Blocxxi/Codec/bencode.cpp:16-27 | A concrete case: i-0e is accepted as zero, whose encoding is i0e. |
| Bencode.DecodeValue | src/Blocxxi/Codec/bencode.cpp:38-110 | Every successful call strictly advances the offset and stays within the input, which is what makes it terminate. |
| Bencode.DecodeValueAt | src/Blocxxi/Codec/bencode.cpp:38-110 | The loops over list items and dictionary entries compute the recursive decode, including every failure. |
| BencodeMachine.StringArithmetic | src/Blocxxi/Codec/bencode.cpp:93-110 | The string case in 64-bit arithmetic: which lengths it accepts, that it moves past its length field if and only if the length fits in the input, and that it differs from the decoder of the model exactly when colon + 1 + length wraps. |
| BencodeMachine.StringsAgreeIff | src/Blocxxi/Codec/bencode.cpp:93-110 | Every string of an input is read as on mathematical integers if and only if no length field in it reaches past 2^64 - 1. |
| BencodeMachine.ValueAgrees | src/Blocxxi/Codec/bencode.cpp:38-110 | If no length field reaches past 2^64 - 1, the 64-bit decoder ends, within one unit of fuel a character, and returns what DecodeValue does, on every input and at every offset. |
| BencodeMachine.LoopsForever | src/Blocxxi/Codec/bencode.cpp:59-70 | On the 22 characters l18446744073709551595: the 64-bit decoder does not end: no amount of fuel is enough. |
| Bencode.AppendEncoded | src/Blocxxi/Codec/bencode.cpp:112-141 | Appends exactly the encoding of the value to the output given. |
| Bencode.AppendEntries | src/Blocxxi/Codec/bencode.cpp:130-139 | Appends the entries in ascending key order. |
| Bencode.SortedKeysAscend | src/Blocxxi/Codec/bencode.cpp:130-139 | The iteration order of the dictionary lists every key once, in ascending byte order. |
| Bencode.DecimalParses | src/Blocxxi/Codec/bencode.cpp:16-35 | A decimal length is parsed back to the same number. |
| Bencode.SignedDecimalParses | src/Blocxxi/Codec/bencode.cpp:16-35 | Every 64-bit integer, negative ones included, is parsed back from its decimal text. |
| Krpc.DecodeEncodeMessage | src/Blocxxi/P2P/kademlia/krpc.cpp:84-163 | DecodeKrpc(Encode(m)) = m for every query, response and error, with or without a version. |
| Krpc.CompactPeerInverse | src/Blocxxi/P2P/kademlia/krpc.cpp:165-193 | An IPv4 endpoint is read back from its six bytes. |
| Krpc.CompactPeerOnto | src/Blocxxi/P2P/kademlia/krpc.cpp:165-193 | Every six bytes are the encoding of the endpoint they decode to. |
| Krpc.CompactNodeInverse | src/Blocxxi/P2P/kademlia/krpc.cpp:195-218 | A node with an IPv4 endpoint is read back from its 26 bytes. |
| Krpc.CompactNodeOnto | src/Blocxxi/P2P/kademlia/krpc.cpp:195-218 | Every 26 bytes are the encoding of the node they decode to. |
| KrpcExamples.KnownNumbers | src/Blocxxi/Codec/bencode.cpp:112-141 | The integers of BEP 3, encoded. |
| KrpcExamples.KnownList | src/Blocxxi/Codec/bencode.cpp:112-141 | The list of BEP 3, encoded. |
| KrpcExamples.CowSpam | src/Blocxxi/Codec/bencode.cpp:112-141 | The dictionary of BEP 3, encoded, with its keys in order. |
| KrpcExamples.PingQuery | src/Blocxxi/P2P/kademlia/krpc.cpp:84-119 | The ping query of BEP 5, entry by entry, for any node id. |
| KrpcExamples.PingResponse | src/Blocxxi/P2P/kademlia/krpc.cpp:84-119 | The ping response of BEP 5, entry by entry. |
| KrpcExamples.GenericError | src/Blocxxi/P2P/kademlia/krpc.cpp:84-119 | The error of BEP 5, entry by entry. |
| KrpcExamples.VersionedError | src/Blocxxi/P2P/kademlia/krpc.cpp:84-119 | The same with a version. |
| KrpcExamples.KnownContacts | src/Blocxxi/P2P/kademlia/krpc.cpp:165-206 | Address and port of a contact in network byte order, behind the id of a node. |
| EventRecord.RecordRoundTrip | src/Blocxxi/P2P/event_dht.cpp:107-287 | A signed record sent through ToValue, bencode and ParseSignedEventRecord comes back equal. |
| EventRecord.RecordInverse | src/Blocxxi/P2P/event_dht.cpp:160-287 | Parsing the value of a signed record gives the record, for every record. |
| EventRecord.EnvelopeInverse | src/Blocxxi/P2P/event_dht.cpp:137-262 | The same for the envelope with its identifiers, attributes and payload. |
| EventRecord.AttributesInverse | src/Blocxxi/P2P/event_dht.cpp:117-208 | The same for attribute lists. |
| EventRecord.StringsInverse | src/Blocxxi/P2P/event_dht.cpp:107-239 | The same for identifier lists. |
| EventRecord.EnvelopeAccepted | src/Blocxxi/P2P/event_dht.cpp:210-262 | An envelope is accepted if and only if its text fields are strings, its times integers and its lists well formed or absent; each field is read from the entry of its name. |
| EventRecord.RecordAccepted | src/Blocxxi/P2P/event_dht.cpp:264-287 | The same for signed records. |
| EventStore.MemoryEventDht.Publish | src/Blocxxi/P2P/event_dht.cpp:326-369 | Succeeds exactly for verified records; then only the bucket of the record's key changes, by one new entry, exactly when no entry there has the same signature and signer, or else by one more publish of that entry. Every bucket keeps holding verified records of its own key, one per signature and signer. |
| EventStore.MemoryEventDht.FindDuplicate | src/Blocxxi/P2P/event_dht.cpp:338-342 | Finds the first entry with the same signature and signer, or none. |
| EventStore.MemoryEventDht.RepublishRecent | src/Blocxxi/P2P/event_dht.cpp:399-415 | Refreshes exactly the entries inside the window, returns their number, and keeps every bucket valid. |
| EventStore.MemoryEventDht.RefreshBucket | src/Blocxxi/P2P/event_dht.cpp:403-412 | The same for one bucket, with the counters accounted for. |
| EventStore.MemoryEventDht.RefreshedMeaning | src/Blocxxi/P2P/event_dht.cpp:399-415 | An entry inside the window is published once more, now, and keeps everything else; one outside it stays; at the same moment the same entries would be refreshed again. |
| EventStore.MemoryEventDht.CountsAddUp | src/Blocxxi/P2P/event_dht.cpp:326-415 | After any run the publish counts add up to successful publishes plus republishes, as long as fewer than 2^32 happened. |
| EventStore.MemoryEventDht.Query | src/Blocxxi/P2P/event_dht.cpp:376-397 | Returns min(limit, matches) matching entries without repeats, newest first, and omits no match newer than one it returns. |
| EventStore.MemoryEventDht.CollectMatches | src/Blocxxi/P2P/event_dht.cpp:376-387 | Collects exactly the entries of all buckets that match, each once. |
| EventStore.MemoryEventDht.BucketMatches | src/Blocxxi/P2P/event_dht.cpp:62-83 | Collects exactly the matching entries of one bucket. |
| EventStore.MatchesMeaning | src/Blocxxi/P2P/event_dht.cpp:47-83 | Each filter that is set excludes by its own field, proper time windows leave exactly the events whose window meets them, and all identifiers asked for must be present. |
| EventStore.MatchesOneSide | src/Blocxxi/P2P/event_dht.cpp:62-83 | Half-open time windows bound one side only. |
| EventStore.SortNewest | src/Blocxxi/P2P/event_dht.cpp:388-392 | Orders by publication time, newest first, and keeps the same entries. |
| EventStore.TotalUpdate | src/Blocxxi/P2P/event_dht.cpp:326-415 | Replacing a bucket changes the total of the counters by the difference of the two buckets. |
| Requests.CallbacksFireAtMostOnce | src/Blocxxi/P2P/kademlia/mainline_node.cpp:32-56 | Over every interleaving of sends, send completions, replies, timer expiries, Start and Stop: each callback fires at most once, requests and timers have the same ids, and every request sent is waiting, fired or dropped, and only one of these. |
| Requests.RunHolds | src/Blocxxi/P2P/kademlia/mainline_node.cpp:291-337 | The invariant behind this holds after every run. |
| Requests.StepHolds | src/Blocxxi/P2P/kademlia/mainline_node.cpp:181-190 | Each single event keeps it, Stop included. |
| Requests.IdsAreFresh | src/Blocxxi/P2P/kademlia/mainline_node.cpp:332-403 | Request ids are never reused and never equal a bootstrap id. |
| Requests.SettledForGood | src/Blocxxi/P2P/kademlia/mainline_node.cpp:181-190 | What Stop dropped never fires later, late timers and replies included, and what fired is not undone. |
| Requests.Delivered | src/Blocxxi/P2P/kademlia/mainline_node.cpp:32-56 | Over every run, a request that is waiting when a reply, a failed send or an expiry that was not cancelled occurs under its id has fired with that outcome. |
| Requests.WaitingEnds | src/Blocxxi/P2P/kademlia/mainline_node.cpp:291-337 | A waiting request stays so until such an event or Stop; the event invokes its callback, with that outcome, and no other; Stop drops it. |
| Requests.OnlyEndsFire | src/Blocxxi/P2P/kademlia/mainline_node.cpp:32-56 | No other event invokes a callback. |
| Requests.SentWaits | src/Blocxxi/P2P/kademlia/mainline_node.cpp:291-337 | A request that has been sent waits, with a timer, under the next id. |
| Requests.StartsOnce | src/Blocxxi/P2P/kademlia/mainline_node.cpp:171-190 | A started node does not start again; Stop leaves bootstrap queries and the id counter alone. |
| Requests.TenBootstraps | src/Blocxxi/P2P/kademlia/mainline_node.cpp:381-406 | Bootstrap ids have one digit: the first ten endpoints are registered, each under its own, and no later one. |
| Requests.KnownIds | src/Blocxxi/P2P/kademlia/mainline_node.cpp:332-403 | The ids q0, q42 and b3, the last for the fourth and the fourteenth endpoint. |
| MainlineNode.MainlineDhtNode.constructor | src/Blocxxi/P2P/kademlia/mainline_node.cpp:60-66 | A node with no requests, tokens or peers. |
| MainlineNode.MainlineDhtNode.SendQuery | src/Blocxxi/P2P/kademlia/mainline_node.cpp:291-337 | Registers callback and timer under an id no pending request or bootstrap query uses. |
| MainlineNode.MainlineDhtNode.TakePendingRequest | src/Blocxxi/P2P/kademlia/mainline_node.cpp:32-56 | Removes callback and timer together and hands out the callback waiting under the id, if there is one. |
| MainlineNode.MainlineDhtNode.OnSendCompleted | src/Blocxxi/P2P/kademlia/mainline_node.cpp:318-329 | A failed send takes the request waiting under the id and fires its callback; anything else fires nothing. |
| MainlineNode.MainlineDhtNode.OnTimer | src/Blocxxi/P2P/kademlia/mainline_node.cpp:303-313 | An expiry that was not cancelled takes the request waiting under the id and fires its callback; anything else fires nothing. |
| MainlineNode.MainlineDhtNode.OnReply | src/Blocxxi/P2P/kademlia/mainline_node.cpp:430-452 | A reply ends the bootstrap query of that id, or else takes the request waiting under it and fires its callback, never both. |
| MainlineNode.MainlineDhtNode.Start | src/Blocxxi/P2P/kademlia/mainline_node.cpp:171-179 | Registers the bootstrap queries up to the first endpoint that does not resolve, where it throws, and disturbs no request. |
| MainlineNode.MainlineDhtNode.SendBootstrapQueries | src/Blocxxi/P2P/kademlia/mainline_node.cpp:381-406 | The loop registers the endpoints before the first that does not resolve, keeping the first endpoint given to a repeated id, and throws if and only if there is one that does not. |
| MainlineNode.MainlineDhtNode.Stop | src/Blocxxi/P2P/kademlia/mainline_node.cpp:181-190 | Leaves no request and no timer behind. |
| MainlineNode.MainlineDhtNode.RequestsAccountedFor | src/Blocxxi/P2P/kademlia/mainline_node.cpp:32-56 | The invariant of the request side holds of the object at every moment. |
| PeerStore.RecordedPeersEarned | src/Blocxxi/P2P/kademlia/mainline_node.cpp:197-257 | Over every run each recorded peer was announced by a sender that had earlier issued get_peers and presented the token issued to it, and is that sender, with the port it sent from if it asked for that, or with the port it named; peer lists are non-empty and without duplicates. |
| PeerStore.AnnouncementRecords | src/Blocxxi/P2P/kademlia/mainline_node.cpp:229-236 | After any run, an announcement with the token issued to its sender adds exactly the peer it names unless it is there, and changes nothing else; any other announcement changes nothing. |
| PeerStore.AnnouncedPort | src/Blocxxi/P2P/kademlia/mainline_node.cpp:361-379 | An implied port records the sender as it is, an explicit one the address of the sender with that port modulo 2^16. |
| PeerStore.TokenedIff | src/Blocxxi/P2P/kademlia/mainline_node.cpp:228-236 | A token passes if and only if it is the one issued to the sender by an earlier get_peers. |
| PeerStore.AnnouncementAnswers | src/Blocxxi/P2P/kademlia/mainline_node.cpp:228-236 | An announcement with a token is refused with error 203 if and only if the token is not the one issued to the sender; a recorded one is acknowledged with the id. |
| PeerStore.NodeAnswers | src/Blocxxi/P2P/kademlia/mainline_node.cpp:197-257 | ping is answered with the id alone, find_node and get_peers about an unknown info hash with `nodes` that decode to the node itself, get_peers also with the token. |
| PeerStore.SampleAnswers | src/Blocxxi/P2P/kademlia/mainline_node.cpp:339-359 | sample_infohashes is answered with the node, the interval, the number of info hashes and the samples. |
| PeerStore.CustomAnswers | src/Blocxxi/P2P/kademlia/mainline_node.cpp:238-251 | Any other query is answered by the application or not at all; its values come with the id and take precedence over it. |
| PeerStore.RecordedPeersAreTheirSenders | src/Blocxxi/P2P/kademlia/mainline_node.cpp:361-379 | With well-formed addresses the earlier get_peers came from the very endpoint that announced. |
| PeerStore.TokensIssued | src/Blocxxi/P2P/kademlia/mainline_node.cpp:209-213 | Every stored token was issued to its endpoint by an earlier get_peers. |
| PeerStore.RenderInjective | src/Blocxxi/P2P/kademlia/mainline_node.cpp:286-289 | Different endpoints have different texts, so tokens of different endpoints differ. |
| PeerStore.KnownToken | src/Blocxxi/P2P/kademlia/endpoint.h:47-51 | The token of 127.0.0.1, port 6881. |
| PeerStore.GetPeersReturnsRecorded | src/Blocxxi/P2P/kademlia/mainline_node.cpp:209-226 | For IPv4 peers the answer to get_peers carries `values` that decode to exactly the recorded list. |
| PeerStore.GetPeersOverTheWire | src/Blocxxi/P2P/kademlia/mainline_node.cpp:197-257 | The same after the answer has been encoded as a KRPC message and decoded by the asker; that message is what leaves the node exactly when it fits a datagram. |
| PeerStore.GetPeersAnsweredIff | src/Blocxxi/P2P/kademlia/mainline_node.cpp:215-222 | get_peers for a recorded info hash is answered if and only if all its recorded peers are IPv4 and the answer, whose size is given in closed form, fits the 1452 bytes the channel sends. |
| PeerStore.GetPeersSize | src/Blocxxi/P2P/kademlia/mainline_node.cpp:209-226 | The encoded answer has 46 bytes, 8 for each peer, and the sizes of the encoded node id, token and transaction id. |
| PeerStore.CrowdSilences | src/Blocxxi/P2P/kademlia/mainline_node.cpp:361-379 | A concrete run in which one IPv4 host announces from 176 ports, after which get_peers is answered to nobody. |
| PeerStore.SamplesAnsweredIff | src/Blocxxi/P2P/kademlia/mainline_node.cpp:339-359 | sample_infohashes is answered if and only if the node is IPv4 and the answer, whose size is given in closed form, fits the 1452 bytes the channel sends. |
| PeerStore.V6PeerSilences | src/Blocxxi/P2P/kademlia/mainline_node.cpp:197-257 | For every IPv6 sender: once it has asked and announced, get_peers for that info hash is answered to nobody. |
| PeerStore.SamplesSplitIff | src/Blocxxi/P2P/kademlia/mainline_node.cpp:339-359 | The samples split into exactly the announced info hashes, 20 bytes each, if and only if all of those have 20 bytes. |
| PeerStore.ShortInfoHash | src/Blocxxi/P2P/kademlia/mainline_node.cpp:361-379 | A concrete run that records a three-byte info hash, after which the samples do not split. |
| PeerStore.CompactPeersDecode | src/Blocxxi/P2P/kademlia/mainline_node.cpp:217-222 | The compact list of IPv4 peers decodes to the list. |
| MainlineNode.MainlineDhtNode.OnQuery | src/Blocxxi/P2P/kademlia/mainline_node.cpp:197-257 | The reply is the one the abstract peer store gives, and tokens and peers change as it says. |
| MainlineNode.MainlineDhtNode.AnswerQuery | src/Blocxxi/P2P/kademlia/mainline_node.cpp:428-439 | What leaves the node is the encoded response, or nothing when there is none or it is above 1452 bytes; tokens and peers change either way. |
| MainlineNode.MainlineDhtNode.AnswerGetPeers | src/Blocxxi/P2P/kademlia/mainline_node.cpp:209-226 | Issues the token and answers with the peers or with the node itself. |
| MainlineNode.MainlineDhtNode.EncodePeers | src/Blocxxi/P2P/kademlia/mainline_node.cpp:217-222 | The loop encodes all peers or fails at the first that is not IPv4. |
| MainlineNode.MainlineDhtNode.AnswerSamples | src/Blocxxi/P2P/kademlia/mainline_node.cpp:339-359 | The answer carries the samples of the abstract peer store, which PeerStore.SamplesSplitIff describes, with the number of info hashes, the interval and the node itself. |
| MainlineNode.MainlineDhtNode.AnswerAnnouncePeer | src/Blocxxi/P2P/kademlia/mainline_node.cpp:229-236 | Records the peer only after the token check, otherwise answers error 203. |
| MainlineNode.MainlineDhtNode.PeersEarned | src/Blocxxi/P2P/kademlia/mainline_node.cpp:361-379 | The property of RecordedPeersEarned holds of the object at every moment. |
| Kernel.Validate | src/Blocxxi/Chain/kernel.cpp:13-49 | Success exactly for a block with a source that is a genesis before bootstrap, and afterwards a non-empty block of the next height naming the head; an invalid argument exactly for a missing source or missing transactions. |
| Kernel.RunSound | src/Blocxxi/Chain/kernel.cpp:65-145 | Over every run of submissions and commits, blocks from outside included: heights equal positions, each block links to its predecessor, block ids are distinct and pending ids are distinct. |
| Kernel.CommitSound | src/Blocxxi/Chain/kernel.cpp:105-132 | One commit keeps this. |
| Kernel.SubmitSound | src/Blocxxi/Chain/kernel.cpp:83-103 | One submission keeps this. |
| Kernel.RunConserves | src/Blocxxi/Chain/kernel.cpp:83-145 | With SubmitTransaction and CommitPending only, the multiset of pending and committed transactions is what was there plus what was accepted. |
| Kernel.CommitAllConserves | src/Blocxxi/Chain/kernel.cpp:134-145 | CommitPending moves transactions and neither loses nor duplicates any, also when it is rejected. |
| Kernel.CommitAllIff | src/Blocxxi/Chain/kernel.cpp:134-145 | On every sound ledger CommitPending is accepted if and only if something is pending, the source is not empty and the block id is new; the new head then holds exactly the pending transactions, at the next height, on top of the old head. |
| Kernel.SubmitIff | src/Blocxxi/Chain/kernel.cpp:83-103 | A transaction is taken if and only if type and payload are not empty and its id is not pending; it waits behind the others. |
| Kernel.CommitLosesNothingIff | src/Blocxxi/Chain/kernel.cpp:105-132 | Accepting a block loses no held transaction if and only if the block contains every pending transaction whose id it uses. |
| Kernel.PendingLost | src/Blocxxi/Chain/kernel.cpp:105-132 | A concrete run in which a submitted transaction vanishes because a block from outside uses its id. |
| Kernel.RunDistinctIff | src/Blocxxi/Chain/kernel.cpp:83-145 | With SubmitTransaction and CommitPending only, the ids of all pending and committed transactions are distinct after a run if and only if they were before it and no accepted submission had an id already on the chain. |
| Kernel.SubmitDistinctIff | src/Blocxxi/Chain/kernel.cpp:83-103 | The same for one submission. |
| Kernel.CommittedTwice | src/Blocxxi/Chain/kernel.cpp:94-99 | A concrete run that commits the same transaction in two blocks. |
| Kernel.SummaryNext | src/Blocxxi/Chain/kernel.cpp:105-132 | The snapshot update is what recounting the longer chain gives, modulo 2^64. |
| Kernel.WithoutKeeps | src/Blocxxi/Chain/kernel.cpp:120-130 | Erasing committed transactions keeps exactly the pending ones with other ids. |
| Kernel.Kernel.constructor | src/Blocxxi/Chain/kernel.cpp:51-63 | Takes any stores. Over stores that hold a chain and its summary, as another kernel leaves them, the kernel is ready to load them; over empty ones it has the empty ledger. |
| Kernel.Kernel.SubmitTransaction | src/Blocxxi/Chain/kernel.cpp:83-103 | Accepted exactly when allowed by the ledger; a rejected one changes nothing and is an invalid argument or a duplicate as its fields or its id are at fault. |
| Kernel.Kernel.CommitBlock | src/Blocxxi/Chain/kernel.cpp:105-132 | Succeeds exactly for blocks that are valid and have a new id; store, snapshot and pending list then agree with the longer chain, and a rejected block changes nothing and is a duplicate exactly when only its id is at fault. |
| Kernel.Kernel.EraseCommitted | src/Blocxxi/Chain/kernel.cpp:120-130 | Removes the pending transactions whose ids are in the block. |
| Kernel.Kernel.CommitPending | src/Blocxxi/Chain/kernel.cpp:134-145 | On success the pending list is empty and the chain one block longer; on failure nothing changes, and the error tells whether nothing was pending, the source was empty or the block id was taken. |
| Kernel.Kernel.Bootstrap | src/Blocxxi/Chain/kernel.cpp:65-81 | Loads the chain found in the stores without changing it, creates the genesis block with the configured payload and name when there is none and genesis creation is on, and otherwise changes nothing; afterwards snapshot and chain agree. |
| Kernel.Kernel.Head | src/Blocxxi/Chain/kernel.cpp:147-153 | The last block of the chain, if there is one. |
| Kernel.BlockStore.PutBlock | src/Blocxxi/Storage/in_memory_store.cpp:14-24 | Appends a block with a new id and refuses one whose id is known. |
| Kernel.BlockStore.GetBlock | src/Blocxxi/Storage/in_memory_store.cpp:26-34 | Finds a block exactly when one with that id is stored. |
| Kernel.BlockStore.GetChain | src/Blocxxi/Storage/in_memory_store.cpp:36-44 | The blocks in the order of their insertion. |
| Uuid.StrictlyIncreasing | src/Nova/Base/Uuid.cpp:103-153 | For every sequence of clock readings, backward jumps and more than 4096 calls in a millisecond included, the UUIDs of one thread are strictly increasing in byte order while the logical timestamp is below 2^48. |
| Uuid.AllVersion7 | src/Nova/Base/Uuid.cpp:103-153 | Every UUID generated has version 7 and the RFC variant. |
| Uuid.OrderEndsAt48Bits | src/Nova/Base/Uuid.cpp:103-127 | The bound is needed: the UUID of timestamp 2^48 is smaller than the one before it. |
| Uuid.OverrunLosesOrder | src/Nova/Base/Uuid.cpp:103-153 | A concrete run of a fresh thread, one reading of 2^48 - 1 and then 4096 more calls, whose last UUID is smaller than the one before it. |
| Uuid.IncreasingIff | src/Nova/Base/Uuid.cpp:103-153 | One state gives a smaller UUID than another, whatever their random parts, if and only if its timestamp modulo 2^48 and counter come first. |
| Uuid.RunIncreasesIff | src/Nova/Base/Uuid.cpp:103-153 | For every sequence of clock readings, all UUIDs of the run increase whatever the random words, if and only if timestamp modulo 2^48 and counter rise with every call. |
| Uuid.JumpRises | src/Nova/Base/Uuid.cpp:103-153 | A concrete run that jumps over 2^48 and still increases. |
| Uuid.TicksIncrease | src/Nova/Base/Uuid.cpp:111-126 | The pair of timestamp and counter strictly increases from call to call. |
| Uuid.PrefixNumber | src/Nova/Base/Uuid.cpp:130-150 | The first eight bytes as a number are timestamp, version and counter. |
| Uuid.RandomNumber | src/Nova/Base/Uuid.cpp:142-150 | The last eight bytes as a number are the variant and 62 bits of the random word. |
| Uuid.AdvanceIsLeast | src/Nova/Base/Uuid.cpp:111-126 | Each call takes the least tick that is after the last one and not before the clock; the counter restarts at 0 when the clock moves on. |
| Uuid.Generator.Generate | src/Nova/Base/Uuid.cpp:103-153 | Advances the thread state and returns its valid version 7 encoding. |
| Uuid.Layout | src/Nova/Base/Uuid.cpp:130-150 | The byte assignments build the layout of section 5.7 of RFC 9562. |
| UuidText.FromString | src/Nova/Base/Uuid.cpp:183-227 | Accepts exactly the canonical lower-case texts of valid version 7 UUIDs, extra hyphens included among the refusals, and returns the bytes they spell. |
| UuidText.ToString | src/Nova/Base/Uuid.cpp:246-262 | Produces the canonical text, character by character. |
| UuidText.AcceptedTexts | src/Nova/Base/Uuid.cpp:183-262 | A text is the canonical text of a UUID if and only if it is canonical and spells that UUID, so formatting and parsing are inverse. |
| UuidText.TextCanonical | src/Nova/Base/Uuid.cpp:246-262 | The text of every UUID is canonical and spells it. |
| UuidText.KnownText | src/Nova/Base/Uuid.cpp:246-262 | The example of appendix A.6 of RFC 9562. |
| UuidText.KnownDigits | src/Nova/Base/Uuid.cpp:246-262 | The sixteen lower-case digits. |
| LeadingZeros.WordZeros | src/Blocxxi/Crypto/hash.cpp:53-71 | For every nonzero word the byte swap, the smear and the de Bruijn table give the number of leading zero bits of its octets in memory. |
| LeadingZeros.SmearFills | src/Blocxxi/Crypto/hash.cpp:63-67 | The smear sets exactly the bits up to the highest one. |
| LeadingZeros.TableInverts | src/Blocxxi/Crypto/hash.cpp:59-70 | The table undoes the multiplication for all 32 masks. |
| LeadingZeros.CountLeadingZeroBits | src/Blocxxi/Crypto/hash.cpp:48-77 | Over any number of words the result is the length of the run of zero bits in memory order. |
| LeadingZeros.ZeroBitsIsRun | src/Blocxxi/Crypto/hash.cpp:48-77 | Counting octet by octet gives the one number that bounds a run of zero bits followed by a one. |
| LeadingZeros.ZeroBitsIsLog | src/Blocxxi/P2P/kademlia/node.cpp:49-53 | That count determines n with 2^n <= number < 2^(n+1), and is full exactly for zero. |
| LeadingZeros.SwapOrder | src/Blocxxi/Crypto/hash.cpp:27-40 | Byte-swapped words compare as their octets in memory. |
| NodeId.Hash.LessThan | src/Blocxxi/Crypto/hash.h:344-359 | Word-wise operator< is the order of the ids as big-endian numbers. |
| NodeId.Hash.XorAssign | src/Blocxxi/Crypto/hash.h:363-369 | The octets become the XOR of the two ids, also when both are the same object. |
| NodeId.Hash.LeadingZeroBits | src/Blocxxi/Crypto/hash.h:327-330 | The length of the leading run of zero bits. |
| NodeId.SharedPrefixSize | src/Blocxxi/P2P/kademlia/node.cpp:32-47 | The table-driven octet loop returns the number of leading bits the two ids share. |
| NodeId.TableZeros | src/Blocxxi/P2P/kademlia/node.cpp:12-27 | Each of the 256 table entries is the leading-zero count of its index. |
| NodeId.XorRunIsPrefix | src/Blocxxi/P2P/kademlia/node.cpp:32-47 | The zero run of the XOR is the shared prefix, so both counts agree. |
| NodeId.LogDistanceTo | src/Blocxxi/P2P/kademlia/node.cpp:49-53 | For distinct ids the n with 2^n <= XOR distance < 2^(n+1), which is also the number of bits behind the first one that differs; for equal ids the wrapped -1. |
| NodeId.DistanceTriangle | src/Blocxxi/P2P/kademlia/node.h:168-176 | The XOR distance obeys the triangle inequality. |
| NodeId.DistanceSymmetric | src/Blocxxi/P2P/kademlia/node.h:168-176 | The XOR distance is symmetric. |
| NodeId.DistanceZeroIff | src/Blocxxi/P2P/kademlia/node.h:168-176 | Only equal ids have distance zero. |
| NodeId.DistanceDetermines | src/Blocxxi/P2P/kademlia/node.h:168-176 | From one id, a distance is reached by at most one other id. |
| NodeId.SharedPrefixUltrametric | src/Blocxxi/P2P/kademlia/node.cpp:32-47 | Two ids share at least the shorter of the prefixes they share with a third, and exactly that when the two differ. |

## Left out

- Bencode.DecodeValue: adds offsets and lengths as mathematical integers, which is
  what the machine computes when no length reaches past 2^64 - 1
  (BencodeMachine.ValueAgrees). After a sum that wraps the source can fail to end.
- Bencode.DecodeValueAt: the same.
- BlockParser.ParseBlockMetadata: adds offsets and lengths as mathematical
  integers; BlockParser.SkipArithmetic says when that is what the machine does.
  After a wrap the source copies ranges that end before they begin, which has no
  defined result.
- BlockParser.ReadLayout: the same.
- BlockParser.ReadInputs: the same.
- BlockParser.SumOutputs: the same.
- BlockParser.ReadStacks: the same.
- BlockParser.ReadItems: the same.
- Hexadecimal text of hashes, block ids and keys, and its stringstream parsing:
  hashes are byte sequences; an empty one stands for empty text.
- The SHA-NI path and the hardware leading-zero instruction: their semantics are
  not visible in the source; the software forms are modelled.
- Signatures, the deterministic event key, the info hash of a key, the FNV-based
  ids of transactions and blocks, and double SHA-256 in the Bitcoin modules: any
  function of the right type. Nothing is assumed about collisions.
- Sockets, timers, DNS and clocks: events and parameters.
- Kernel operations between constructing a kernel over stores that already hold a
  chain and its Bootstrap.
- `MainlineEventDht`, the live signet client, the file stores, UPnP, logging,
  the state machine and container templates.
- `Block::MakeNext` is modelled only through the header fields it sets.
- Raw ordering of handle words, handle text, `Reserve`, capacity and iteration
  of the resource table: easy members.
- Handles are values in the model, so the setters are functions from word to word.
- Wrap-around of the 64-bit request counter of the DHT node, of 64-bit clock
  arithmetic in the event store and of the 64-bit millisecond clock of UUIDs.
- Hash-map iteration order and the order `std::sort` gives to equal timestamps:
  nothing is claimed about them.
- The list loops of the event record codec are recursive functions.
- ResourceTable.Table.Insert: requires room for one more index, as the source
  asserts.
- PeerStore.RenderInjective: the text of an IPv6 address is taken as given and
  required to contain a colon.
- PeerStore.RecordedPeersAreTheirSenders: the same requirement on every sender;
  PeerStore.RecordedPeersEarned needs none.
- HeaderSync.HeaderSyncAdapter.SubmitHeaders: what a bound node did with the
  headers before a failing one is not modelled; only the adapter is atomic.
- The difficulty window of header validation is the one in the code; it is not
  claimed to be Bitcoin's retarget schedule.
- Big-endian hosts, where id words are not swapped.
