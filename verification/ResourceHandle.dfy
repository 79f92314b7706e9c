// Model of src/Nova/Base/ResourceHandle.h.
//
// The handle is one 64-bit word. From the least significant bit:
//   index 32 | generation 12 | custom 8 | resource type 8 | free 1 | reserved 3
// The word operations below are the shift-and-mask expressions of the source.
// `Unpack` reads a word as a record, and the lemmas show that every word
// operation is a plain record update, so that code working on handles can be
// reasoned about on records.
module ResourceHandle {

  const INDEX_MASK: bv64 := 0xFFFF_FFFF
  const GENERATION_MASK: bv64 := 0xFFF
  const BYTE_MASK: bv64 := 0xFF
  const RESERVED_MASK: bv64 := 0x7
  const HANDLE_MASK: bv64 := 0xFFFF_FFFF_FFFF_FFFF

  // kInvalidIndex == kIndexMax
  const INVALID_INDEX: nat := 0xFFFF_FFFF
  const GENERATIONS: nat := 4096

  datatype Handle = Handle(index: nat, generation: nat, custom: nat, resourceType: nat, free: bool, reserved: nat)
  {
    // The value ranges the bit widths allow.
    predicate InRange() {
      index <= INVALID_INDEX && generation < GENERATIONS && custom < 256 && resourceType < 256 && reserved < 8
    }

    predicate IsValid() { index != INVALID_INDEX }

    function NewGeneration(): Handle {
      this.(generation := if generation == GENERATIONS - 1 then 0 else generation + 1)
    }
  }

  // The handle the two-argument constructor makes.
  function Make(index: nat, resourceType: nat): Handle {
    Handle(index, 0, 0, resourceType, false, 0)
  }

  // ----- the packed word -----

  function Index(w: bv64): bv64 { w & INDEX_MASK }
  function Generation(w: bv64): bv64 { (w >> 32) & GENERATION_MASK }
  function Custom(w: bv64): bv64 { (w >> 44) & BYTE_MASK }
  function ResourceType(w: bv64): bv64 { (w >> 52) & BYTE_MASK }
  function Reserved(w: bv64): bv64 { (w >> 61) & RESERVED_MASK }
  predicate IsFree(w: bv64) { (w & (1 << 60)) != 0 }

  function SetIndex(w: bv64, index: bv64): bv64 {
    (w & (HANDLE_MASK << 32)) | (if index <= INDEX_MASK then index else INDEX_MASK)
  }

  function SetGeneration(w: bv64, generation: bv64): bv64 {
    var g := if generation > GENERATION_MASK then 0 else generation;
    (w & ((HANDLE_MASK << 44) | INDEX_MASK)) | (g << 32)
  }

  function SetCustom(w: bv64, custom: bv64): bv64 {
    (w & (((1 << 44) - 1) | (HANDLE_MASK << 52))) | (custom << 44)
  }

  function SetResourceType(w: bv64, resourceType: bv64): bv64 {
    (w & (((1 << 52) - 1) | (HANDLE_MASK << 60))) | (resourceType << 52)
  }

  function SetReserved(w: bv64, reserved: bv64): bv64 {
    (w & ((1 << 61) - 1)) | (reserved << 61)
  }

  function SetFree(w: bv64, flag: bool): bv64 {
    var cleared := w & !(1 << 60);
    if flag then cleared | (1 << 60) else cleared
  }

  function NextValue(generation: bv64): bv64 {
    if generation == GENERATION_MASK then 0 else generation + 1
  }

  function NextGeneration(w: bv64): bv64 {
    var next := NextValue(Generation(w));
    (w & ((HANDLE_MASK << 44) | INDEX_MASK)) | (next << 32)
  }

  // ResourceHandle(index, type): every setter in turn over the all-ones word.
  function Construct(index: bv64, resourceType: bv64): bv64 {
    SetFree(SetReserved(SetCustom(SetGeneration(SetResourceType(SetIndex(HANDLE_MASK, index), resourceType), 0), 0), 0), false)
  }

  // The fields of a word, still as bit vectors ...
  datatype Fields = Fields(index: bv64, generation: bv64, custom: bv64, resourceType: bv64, free: bool, reserved: bv64)

  function Split(w: bv64): Fields {
    Fields(Index(w), Generation(w), Custom(w), ResourceType(w), IsFree(w), Reserved(w))
  }

  // ... and as numbers.
  function Numbers(f: Fields): Handle {
    Handle(Number(f.index), Number(f.generation), Number(f.custom), Number(f.resourceType), f.free, Number(f.reserved))
  }

  function Number(b: bv64): nat { b as nat }

  function Unpack(w: bv64): Handle { Numbers(Split(w)) }

  // ----- each setter changes its own field and no other -----

  lemma SetIndexSplit(w: bv64, index: bv64)
    requires index <= INDEX_MASK
    ensures Split(SetIndex(w, index)) == Split(w).(index := index)
  {
  }

  lemma SetCustomSplit(w: bv64, custom: bv64)
    requires custom <= BYTE_MASK
    ensures Split(SetCustom(w, custom)) == Split(w).(custom := custom)
  {
  }

  lemma SetResourceTypeSplit(w: bv64, resourceType: bv64)
    requires resourceType <= BYTE_MASK
    ensures Split(SetResourceType(w, resourceType)) == Split(w).(resourceType := resourceType)
  {
  }

  lemma SetReservedSplit(w: bv64, reserved: bv64)
    requires reserved <= RESERVED_MASK
    ensures Split(SetReserved(w, reserved)) == Split(w).(reserved := reserved)
  {
  }

  lemma SetFreeKeepsLow(w: bv64, flag: bool)
    ensures Index(SetFree(w, flag)) == Index(w) && Custom(SetFree(w, flag)) == Custom(w)
  {
  }

  lemma SetFreeKeepsGeneration(w: bv64, flag: bool)
    ensures Generation(SetFree(w, flag)) == Generation(w)
  {
  }

  lemma SetFreeKeepsHigh(w: bv64, flag: bool)
    ensures ResourceType(SetFree(w, flag)) == ResourceType(w) && Reserved(SetFree(w, flag)) == Reserved(w)
    ensures IsFree(SetFree(w, flag)) == flag
  {
  }

  lemma SetFreeSplit(w: bv64, flag: bool)
    ensures Split(SetFree(w, flag)) == Split(w).(free := flag)
  {
    SetFreeKeepsLow(w, flag);
    SetFreeKeepsGeneration(w, flag);
    SetFreeKeepsHigh(w, flag);
  }

  lemma SetGenerationSplit(w: bv64, generation: bv64)
    requires generation <= GENERATION_MASK
    ensures Split(SetGeneration(w, generation)) == Split(w).(generation := generation)
  {
  }

  lemma GenerationInRange(w: bv64)
    ensures Generation(w) <= GENERATION_MASK
  {
  }

  lemma NextInRange(g: bv64)
    requires g <= GENERATION_MASK
    ensures NextValue(g) <= GENERATION_MASK
    ensures NextValue(g) as nat == if g as nat == GENERATIONS - 1 then 0 else g as nat + 1
  {
  }

  lemma ConstructSplit(index: bv64, resourceType: bv64)
    requires index <= INDEX_MASK && resourceType <= BYTE_MASK
    ensures Split(Construct(index, resourceType)) == Fields(index, 0, 0, resourceType, false, 0)
  {
  }

  lemma SplitInjective(v: bv64, w: bv64)
    requires Split(v) == Split(w)
    ensures v == w
  {
  }

  // Where each field stands in the word.
  lemma Layout(w: bv64)
    ensures w == Index(w) | (Generation(w) << 32) | (Custom(w) << 44) | (ResourceType(w) << 52)
                 | ((if IsFree(w) then 1 else 0) << 60) | (Reserved(w) << 61)
  {
    if IsFree(w) {} else {}
  }

  // ----- so each setter is a record update -----

  lemma SettersUpdateRecord(w: bv64, value: bv64, flag: bool)
    ensures value <= INDEX_MASK ==> Unpack(SetIndex(w, value)) == Unpack(w).(index := value as nat)
    ensures value <= BYTE_MASK ==> Unpack(SetCustom(w, value)) == Unpack(w).(custom := value as nat)
    ensures value <= BYTE_MASK ==> Unpack(SetResourceType(w, value)) == Unpack(w).(resourceType := value as nat)
    ensures value <= RESERVED_MASK ==> Unpack(SetReserved(w, value)) == Unpack(w).(reserved := value as nat)
    ensures Unpack(SetFree(w, flag)) == Unpack(w).(free := flag)
  {
    if value <= INDEX_MASK { SetIndexSplit(w, value); }
    if value <= BYTE_MASK { SetCustomSplit(w, value); SetResourceTypeSplit(w, value); }
    if value <= RESERVED_MASK { SetReservedSplit(w, value); }
    SetFreeSplit(w, flag);
  }

  // Advancing the generation replaces that field by its successor, and (by
  // `NextInRange`) the successor is the one `Handle.NewGeneration` computes.
  lemma NextGenerationSplit(w: bv64)
    ensures Split(NextGeneration(w)) == Split(w).(generation := NextValue(Generation(w)))
  {
    GenerationInRange(w);
    NextGenerationAs(w, NextValue(Generation(w)));
  }

  lemma NextGenerationAs(w: bv64, next: bv64)
    requires next == NextValue(Generation(w)) && Generation(w) <= GENERATION_MASK
    ensures Split(NextGeneration(w)) == Split(w).(generation := next)
  {
    SetGenerationSplit(w, next);
  }

  lemma NextNumber(g: bv64)
    requires g <= GENERATION_MASK
    ensures Number(NextValue(g)) == if Number(g) == GENERATIONS - 1 then 0 else Number(g) + 1
  {
    hide NextValue;
    NextInRange(g);
  }

  lemma NumbersNext(f: Fields)
    requires f.generation <= GENERATION_MASK
    ensures Numbers(f.(generation := NextValue(f.generation))) == Numbers(f).NewGeneration()
  {
    hide NextValue, Number;
    NextNumber(f.generation);
  }

  lemma NextGenerationUpdatesRecord(w: bv64)
    ensures Unpack(NextGeneration(w)) == Unpack(w).NewGeneration()
  {
    hide NextGeneration, Split, NextValue, Numbers, Generation;
    NextGenerationSplit(w);
    GenerationInRange(w);
    SplitGeneration(w);
    NumbersNext(Split(w));
  }

  lemma SetGenerationUpdatesRecord(w: bv64, generation: bv64)
    requires generation <= GENERATION_MASK
    ensures Unpack(SetGeneration(w, generation)) == Unpack(w).(generation := generation as nat)
  {
    hide SetGeneration, Split;
    SetGenerationSplit(w, generation);
  }

  lemma SplitGeneration(w: bv64)
    ensures Split(w).generation == Generation(w)
  {
  }

  lemma ConstructMakesRecord(index: bv64, resourceType: bv64)
    requires index <= INDEX_MASK && resourceType <= BYTE_MASK
    ensures Unpack(Construct(index, resourceType)) == Make(index as nat, resourceType as nat)
  {
    hide Construct, Split;
    ConstructSplit(index, resourceType);
  }

  // ----- records in range are words -----

  lemma Doubles(v: bv64)
    requires v <= 0x7FFF_FFFF
    ensures Number(v << 1) == 2 * Number(v) && Number((v << 1) | 1) == 2 * Number(v) + 1
  {
  }

  lemma NumberBounds(v: bv64)
    ensures v <= 0x7FFF_FFFF <==> Number(v) <= 0x7FFF_FFFF
    ensures v <= INDEX_MASK <==> Number(v) <= INVALID_INDEX
    ensures v <= GENERATION_MASK <==> Number(v) < GENERATIONS
  {
  }

  lemma SmallNumberBounds(v: bv64)
    ensures v <= BYTE_MASK <==> Number(v) < 256
    ensures v <= RESERVED_MASK <==> Number(v) < 8
  {
  }

  // The bits of a number, the last one last.
  function Word(x: nat): (w: bv64)
    requires x <= INVALID_INDEX
    ensures Number(w) == x
  {
    if x == 0 then 0
    else
      var half := Word(x / 2);
      NumberBounds(half);
      Doubles(half);
      if x % 2 == 0 then half << 1 else (half << 1) | 1
  }

  lemma NumberInjective(v: bv64, w: bv64)
    requires Number(v) == Number(w)
    ensures v == w
  {
    hide Number, Back;
    NumberBack(v);
    NumberBack(w);
  }

  function Back(n: nat): bv64 requires n < 0x1_0000_0000_0000_0000 { n as bv64 }

  lemma NumberBack(v: bv64)
    ensures Number(v) < 0x1_0000_0000_0000_0000 && Back(Number(v)) == v
  {
  }

  function Pack(h: Handle): bv64
    requires h.InRange()
  {
    SetFree(SetReserved(SetCustom(SetGeneration(SetResourceType(SetIndex(0, Word(h.index)), Word(h.resourceType)),
                                                Word(h.generation)), Word(h.custom)), Word(h.reserved)), h.free)
  }

  lemma UnpackPack(h: Handle)
    requires h.InRange()
    ensures Unpack(Pack(h)) == h
  {
    hide Word, Split, Number, SetIndex, SetResourceType, SetGeneration, SetCustom, SetReserved, SetFree;
    var index, kind, generation := Word(h.index), Word(h.resourceType), Word(h.generation);
    var custom, reserved := Word(h.custom), Word(h.reserved);
    NumberBounds(index);
    NumberBounds(generation);
    SmallNumberBounds(kind);
    SmallNumberBounds(custom);
    SmallNumberBounds(reserved);
    var a := SetIndex(0, index);
    SetIndexSplit(0, index);
    var b := SetResourceType(a, kind);
    SetResourceTypeSplit(a, kind);
    var c := SetGeneration(b, generation);
    SetGenerationSplit(b, generation);
    var d := SetCustom(c, custom);
    SetCustomSplit(c, custom);
    var e := SetReserved(d, reserved);
    SetReservedSplit(d, reserved);
    SetFreeSplit(e, h.free);
  }

  lemma UnpackInRange(w: bv64)
    ensures Unpack(w).InRange()
  {
    SplitInRange(w);
    var f := Split(w);
    hide Split, Number;
    NumberBounds(f.index);
    NumberBounds(f.generation);
    SmallNumberBounds(f.custom);
    SmallNumberBounds(f.resourceType);
    SmallNumberBounds(f.reserved);
  }

  lemma SplitInRange(w: bv64)
    ensures Split(w).index <= INDEX_MASK && Split(w).generation <= GENERATION_MASK && Split(w).custom <= BYTE_MASK
    ensures Split(w).resourceType <= BYTE_MASK && Split(w).reserved <= RESERVED_MASK
  {
  }

  lemma UnpackInjective(v: bv64, w: bv64)
    requires Unpack(v) == Unpack(w)
    ensures v == w
  {
    hide Split, Number;
    var f, g := Split(v), Split(w);
    NumberInjective(f.index, g.index);
    NumberInjective(f.generation, g.generation);
    NumberInjective(f.custom, g.custom);
    NumberInjective(f.resourceType, g.resourceType);
    NumberInjective(f.reserved, g.reserved);
    SplitInjective(v, w);
  }

  // A record is in range exactly when it is the reading of a word, and then of one only.
  lemma InRangeIff(h: Handle)
    ensures h.InRange() <==> exists w :: Unpack(w) == h
    ensures forall v, w :: Unpack(v) == h && Unpack(w) == h ==> v == w
  {
    hide Unpack, Pack;
    if h.InRange() { UnpackPack(h); }
    forall w | Unpack(w) == h ensures h.InRange() { UnpackInRange(w); }
    forall v, w | Unpack(v) == h && Unpack(w) == h ensures v == w { UnpackInjective(v, w); }
  }
}
