// Model of src/Nova/Base/ResourceTable.h: the sparse, dense and meta arrays and
// the freelist threaded through the free entries of the sparse array.
module ResourceTable {
  import opened Wrappers
  import opened ResourceSlots
  import opened DenseOrder

  type Word = RH.Handle

  const NIL: nat := RH.INVALID_INDEX

  // ----- the representation invariant, array by array -----

  // Dense positions and live slots point at each other.
  ghost predicate Linked(sparse: seq<Word>, meta: seq<nat>) {
    && (forall d :: 0 <= d < |meta| ==>
          meta[d] < |sparse| && !sparse[meta[d]].free && sparse[meta[d]].index == d)
    && (forall s :: 0 <= s < |sparse| && !sparse[s].free ==>
          sparse[s].index < |meta| && meta[sparse[s].index] == s)
  }

  function After(queue: seq<nat>, k: nat): nat
    requires k < |queue|
  {
    if k + 1 < |queue| then queue[k + 1] else NIL
  }

  // `queue` lists the free slots in freelist order; each free entry's index
  // field is the next free slot, and the last one is NIL.
  ghost predicate Chained(sparse: seq<Word>, queue: seq<nat>) {
    && Distinct(queue)
    && (forall k :: 0 <= k < |queue| ==>
          queue[k] < |sparse| && sparse[queue[k]].free && sparse[queue[k]].index == After(queue, k))
    && (forall s :: 0 <= s < |sparse| && sparse[s].free ==> s in queue)
  }

  ghost predicate Stamped(sparse: seq<Word>, advances: seq<nat>, itemType: nat) {
    && |advances| == |sparse|
    && (forall s :: 0 <= s < |sparse| ==>
          && sparse[s].generation == advances[s] % RH.GENERATIONS
          && sparse[s].resourceType == itemType && sparse[s].custom == 0 && sparse[s].reserved == 0)
  }

  ghost function Live<T>(sparse: seq<Word>, items: seq<T>, meta: seq<nat>): map<nat, T>
    requires Linked(sparse, meta) && |items| == |meta|
  {
    map s: nat | s < |sparse| && !sparse[s].free :: items[sparse[s].index]
  }

  function EraseOne<T>(a: Slots<T>, handle: Word, itemType: nat): Slots<T> {
    if handle.resourceType == itemType then a.Erase(handle.index, handle.generation) else a
  }

  function EraseAll<T>(a: Slots<T>, handles: seq<Word>, itemType: nat): Slots<T> {
    if handles == [] then a
    else EraseOne(EraseAll(a, handles[..|handles| - 1], itemType), handles[|handles| - 1], itemType)
  }

  // Outcome of the throwing lookup.
  datatype Lookup = Found(index: nat) | InvalidHandle | OutOfRange | TypeMismatch | Erased | Stale

  class Table<T> {
    const itemType: nat
    var sparse: seq<Word>
    var items: seq<T>
    var meta: seq<nat>
    var front: nat
    var back: nat
    var fragmented: bool

    ghost var queue: seq<nat>
    ghost var advances: seq<nat>

    ghost predicate Valid()
      reads `sparse, `items, `meta, `front, `back, `queue, `advances
    {
      && |items| == |meta|
      && |sparse| == |items| + |queue| <= NIL
      && Linked(sparse, meta)
      && Chained(sparse, queue)
      && Stamped(sparse, advances, itemType)
      && front == (if queue == [] then NIL else queue[0])
      && back == (if queue == [] then NIL else queue[|queue| - 1])
    }

    ghost function View(): Slots<T>
      reads `sparse, `items, `meta, `front, `back, `queue, `advances
      requires Valid()
    {
      Slots(advances, Live(sparse, items, meta), queue)
    }

    // Live slots and items match in number, the freelist holds exactly the
    // other slots, each once, and the two together are the sparse array.
    lemma ViewWellFormed()
      requires Valid()
      ensures View().WellFormed()
      ensures |View().live| == |items| && |sparse| == |items| + |queue|
    {
      LiveSize(sparse, items, meta);
    }

    constructor (resourceType: nat)
      ensures Valid() && itemType == resourceType && !fragmented
      ensures View() == Slots([], map[], [])
    {
      itemType := resourceType;
      sparse, items, meta := [], [], [];
      front, back, fragmented := NIL, NIL, false;
      queue, advances := [], [];
    }

    // ----- lookup -----

    predicate Contains(handle: Word)
      reads this
      requires Valid()
      ensures Contains(handle) <==>
              handle.resourceType == itemType && View().Resolve(handle.index, handle.generation).Some?
    {
      if handle.index >= |sparse| || handle.resourceType != itemType then false
      else
        var inner := sparse[handle.index];
        if inner.free then false else handle.generation == inner.generation
    }

    function TryGet(handle: Word): (r: Option<T>)
      reads this
      requires Valid()
      ensures r.Some? <==> Contains(handle)
      ensures r.Some? ==> r == View().Resolve(handle.index, handle.generation)
    {
      if handle.index >= |sparse| || handle.resourceType != itemType then None
      else
        var inner := sparse[handle.index];
        if inner.free then None
        else if handle.generation != inner.generation then None
        else Some(items[inner.index])
    }

    // The errors stand for the exceptions, in terms of slots, generations and what
    // is live.
    function GetInnerIndex(handle: Word): (r: Lookup)
      reads this
      requires Valid()
      ensures r.Found? <==> Contains(handle)
      ensures r.Found? ==> r.index < |items| && TryGet(handle) == Some(items[r.index])
      ensures r.InvalidHandle? <==> handle.index == NIL
      ensures r.OutOfRange? <==> |advances| <= handle.index != NIL
      ensures r.TypeMismatch? <==> handle.index < |advances| && handle.resourceType != itemType
      ensures r.Erased? <==> handle.index < |advances| && handle.resourceType == itemType && handle.index !in View().live
      ensures r.Stale? <==> handle.index < |advances| && handle.resourceType == itemType && handle.index in View().live
                            && handle.generation != advances[handle.index] % RH.GENERATIONS
    {
      if !handle.IsValid() then InvalidHandle
      else if handle.index >= |sparse| then OutOfRange
      else if handle.resourceType != itemType then TypeMismatch
      else
        var inner := sparse[handle.index];
        if inner.free then Erased
        else if handle.generation != inner.generation then Stale
        else Found(inner.index)
    }

    // ----- insertion -----

    // The source asserts the size bound and does not test it otherwise.
    method Insert(item: T) returns (handle: Word)
      requires Valid() && |items| < NIL
      modifies this
      ensures Valid() && fragmented
      ensures View() == old(View()).Insert(item)
      ensures items == old(items) + [item]
      ensures handle.index == old(View()).NextSlot() < |advances|
      ensures handle == RH.Make(handle.index, itemType).(generation := advances[handle.index] % RH.GENERATIONS)
    {
      hide Linked, Chained;
      QueueInRange(sparse, queue);
      handle := RH.Make(NIL, itemType);
      fragmented := true;
      if front == NIL {
        // The freelist is empty, so every slot is live and the sparse size is
        // also the dense index of the new item.
        handle := handle.(index := |sparse|, resourceType := itemType, free := false);
        FreshSlot(sparse, items, meta, handle, item);
        sparse := sparse + [handle];
        advances := advances + [0];
      } else {
        var outer := front;
        ReusedSlot(sparse, items, meta, queue, item);
        front := sparse[outer].index;
        if front == NIL { back := front; }
        var inner := sparse[outer].(free := false).(index := |items|);
        sparse := sparse[outer := inner];
        handle := inner.(index := outer);
        queue := queue[1..];
      }
      items := items + [item];
      meta := meta + [handle.index];
    }

    // ----- removal -----

    method Erase(handle: Word) returns (count: nat)
      requires Valid()
      modifies this
      ensures Valid()
      ensures count == if old(Contains(handle)) then 1 else 0
      ensures View() == EraseOne(old(View()), handle, itemType)
      ensures |items| == |old(items)| - count
      ensures fragmented == (old(fragmented) || count > 0)
      // the last item takes the place of the erased one
      ensures count == 1 ==> old(handle.index < |sparse| && sparse[handle.index].index < |items| == |meta|)
      ensures count == 1 ==> items == Popped(old(items), old(sparse[handle.index].index))
      ensures count == 0 ==> items == old(items)
    {
      hide Linked, Chained, Stamped, Live;
      if !Contains(handle) {
        return 0;
      }
      fragmented := true;
      var position := sparse[handle.index].index;
      ghost var sparse0, items0, meta0 := sparse, items, meta;
      SlotInRange(sparse, meta, handle.index);
      PushFree(handle.index);
      Relinked(sparse0, items0, meta0, handle.index, sparse);
      SwapAndPop(position);
      return 1;
    }

    // Puts a live slot at the back of the freelist with a new generation.
    method PushFree(slot: nat)
      requires Chained(sparse, queue) && Stamped(sparse, advances, itemType) && |sparse| <= NIL
      requires front == (if queue == [] then NIL else queue[0]) && back == (if queue == [] then NIL else queue[|queue| - 1])
      requires slot < |sparse| && !sparse[slot].free
      modifies `sparse, `front, `back, `queue, `advances
      ensures Chained(sparse, queue) && Stamped(sparse, advances, itemType) && |sparse| == |old(sparse)|
      ensures queue == old(queue) + [slot] && advances == old(advances)[slot := old(advances[slot]) + 1]
      ensures front == queue[0] && back == slot
      ensures sparse[slot].free
      ensures forall s :: 0 <= s < |sparse| && s != slot ==>
                sparse[s].free == old(sparse[s].free) && (!sparse[s].free ==> sparse[s] == old(sparse[s]))
    {
      hide Chained;
      QueueInRange(sparse, queue);
      Appended(sparse, queue, slot);
      sparse := sparse[slot := sparse[slot].(free := true).NewGeneration().(index := NIL)];
      if front == NIL {
        front := slot;
        back := front;
        assert queue + [slot] == [slot];
      } else {
        sparse := sparse[back := sparse[back].(index := slot)];
        back := slot;
      }
      queue := queue + [slot];
      advances := advances[slot := advances[slot] + 1];
    }

    // The last item takes the place of the one at `position`.
    method SwapAndPop(position: nat)
      requires |items| == |meta| && position < |items|
      requires Chained(sparse, queue) && Stamped(sparse, advances, itemType)
      requires position != |meta| - 1 ==> meta[|meta| - 1] < |sparse| && !sparse[meta[|meta| - 1]].free
      modifies `sparse, `items, `meta
      ensures items == Popped(old(items), position) && meta == Popped(old(meta), position)
      ensures Chained(sparse, queue) && Stamped(sparse, advances, itemType)
      ensures sparse == Moved(old(sparse), old(meta), position)
    {
      hide Chained;
      if position != |items| - 1 {
        items := items[position := items[|items| - 1]][|items| - 1 := items[position]];
        meta := meta[position := meta[|meta| - 1]][|meta| - 1 := meta[position]];
        LiveWrite(sparse, queue, meta[position], position);
        sparse := sparse[meta[position] := sparse[meta[position]].(index := position)];
      }
      items := items[..|items| - 1];
      meta := meta[..|meta| - 1];
    }

    method EraseItems(handles: seq<Word>) returns (count: nat)
      requires Valid()
      modifies this
      ensures Valid()
      ensures View() == EraseAll(old(View()), handles, itemType)
      ensures count == |old(items)| - |items|
      ensures fragmented == (old(fragmented) || count > 0)
    {
      count := 0;
      for k := 0 to |handles|
        invariant Valid() && count == |old(items)| - |items| && fragmented == (old(fragmented) || count > 0)
        invariant View() == EraseAll(old(View()), handles[..k], itemType)
      {
        assert handles[..k + 1][..k] == handles[..k];
        var erased := Erase(handles[k]);
        count := count + erased;
      }
      assert handles[..|handles|] == handles;
    }

    method Clear()
      requires Valid()
      modifies this
      ensures Valid() && items == []
      ensures View() == old(View()).Clear()
      ensures fragmented == (old(fragmented) && |sparse| == 0)
    {
      hide Linked, Chained, Stamped, Live;
      ghost var was, cleared := sparse, View().Clear();
      StampLength(sparse, advances, itemType);
      if |sparse| > 0 {
        items := [];
        meta := [];
        front := 0;
        back := |sparse| - 1;
        fragmented := false;
        FreeAllSlots();
      }
      AllStamped(was, advances, itemType, sparse, cleared.advances);
      AllFree<T>(sparse, cleared.queue);
      queue, advances := cleared.queue, cleared.advances;
    }

    // The loop of Clear over the sparse array.
    method FreeAllSlots()
      requires |sparse| > 0
      modifies `sparse
      ensures |sparse| == |old(sparse)|
      ensures forall s :: 0 <= s < |sparse| ==> sparse[s] == Freed(old(sparse), s)
    {
      var size := |sparse|;
      for index := 0 to size
        invariant |sparse| == size
        invariant forall s :: 0 <= s < index ==> sparse[s] == old(sparse)[s].(free := true).NewGeneration().(index := s + 1)
        invariant forall s :: index <= s < size ==> sparse[s] == old(sparse)[s]
      {
        sparse := sparse[index := sparse[index].(free := true).NewGeneration().(index := index + 1)];
      }
      sparse := sparse[size - 1 := sparse[size - 1].(index := NIL)];
    }

    method Reset()
      requires Valid()
      modifies this
      ensures Valid() && items == [] && !fragmented
      ensures View() == Slots([], map[], [])
    {
      front, back, fragmented := NIL, NIL, false;
      items, meta, sparse := [], [], [];
      queue, advances := [], [];
    }

    // ----- defragmentation -----

    // `blockMove` is whether the item type is trivially copyable.
    method Defragment(before: (T, T) -> bool, maxSwaps: nat, blockMove: bool) returns (swaps: nat)
      requires Valid()
      modifies this
      ensures Valid() && View() == old(View())
      ensures !old(fragmented) ==> swaps == 0 && items == old(items) && meta == old(meta) && !fragmented
      ensures multiset(items) == multiset(old(items))
      ensures maxSwaps > 0 ==> swaps <= maxSwaps
      // the arrays and the count, with or without a limit
      ensures |old(meta)| == |old(items)| == |items|
      ensures old(fragmented) ==>
                Progress(Dense(items, meta), swaps) == Swept(old(Dense(items, meta)), before, |items|, maxSwaps, blockMove)
      // the flag stays set for an empty table and for an interrupted sweep
      ensures old(fragmented) ==>
                (fragmented <==> items == [] || Interrupted(old(Dense(items, meta)), before, maxSwaps, blockMove))
      // without a limit both branches leave the same fully swept arrays, and the
      // block-move branch clears the flag only after a full sweep
      ensures old(fragmented) && (maxSwaps == 0 || (blockMove && !fragmented)) ==>
                Dense(items, meta) == Sweep(old(Dense(items, meta)), before, |items|)
    {
      hide Valid, View, Rotate, Stop, StopWithin, Swept, Interrupted, Sweep;
      SizesMatch();
      if !fragmented {
        return 0;
      }
      swaps := 0;
      ghost var start := Dense(items, meta);
      NothingSwept(start, before, maxSwaps, blockMove);
      var index := 1;
      while index < |items| && (maxSwaps == 0 || swaps < maxSwaps)
        invariant Valid() && View() == old(View()) && fragmented
        invariant |items| == |meta| == |start.items| == |start.meta| && 1 <= index && (index <= |items| || |items| == 0)
        invariant multiset(items) == multiset(old(items)) && (maxSwaps == 0 || swaps <= maxSwaps)
        invariant Progress(Dense(items, meta), swaps) == Swept(start, before, Upto(index, |items|), maxSwaps, blockMove)
        invariant 1 < index <= |items| && maxSwaps > 0 ==> Swept(start, before, index - 1, maxSwaps, blockMove).swaps < maxSwaps
      {
        SweptNext(start, before, index, maxSwaps, blockMove);
        swaps := Sink(before, index, maxSwaps, blockMove, swaps);
        index := index + 1;
      }
      SweptEnds(start, before, index, maxSwaps, blockMove);
      if index == |items| {
        fragmented := false;
      }
    }

    // The records in the sparse array fit their 64 bits.
    lemma SparseInRange()
      requires Valid() && itemType < 256
      ensures forall s :: 0 <= s < |sparse| ==> sparse[s].InRange()
    {
      forall s | 0 <= s < |sparse| ensures sparse[s].InRange() {
        if sparse[s].free {
          var k :| 0 <= k < |queue| && queue[k] == s;
          assert sparse[s].index == After(queue, k);
        }
      }
    }

    lemma SizesMatch()
      requires Valid()
      ensures |items| == |meta|
    {
    }

    // One turn of the outer loop.
    method Sink(before: (T, T) -> bool, index: nat, maxSwaps: nat, blockMove: bool, used: nat) returns (swaps: nat)
      requires Valid() && index < |items| == |meta| && (maxSwaps == 0 || used < maxSwaps)
      modifies `sparse, `items, `meta
      ensures Valid() && View() == old(View()) && |items| == |meta| == |old(items)|
      ensures Progress(Dense(items, meta), swaps) == Step(old(Dense(items, meta)), before, index, maxSwaps, blockMove, used)
      ensures multiset(items) == multiset(old(items))
    {
      hide Valid, View, Rotate, Stop, StopWithin;
      ghost var to := if blockMove then Stop(items, before, items[index], index) else Target(items, before, index, maxSwaps, used);
      RotatePermutes(items, to, index);
      if blockMove {
        var moved := SinkByBlockMove(before, index);
        swaps := if moved then used + 1 else used;
      } else {
        swaps := SinkOneByOne(before, index, maxSwaps, used);
      }
    }

    // Inserts the item at `index` among those before it by one block move.
    // This is the branch taken for trivially copyable items.
    method SinkByBlockMove(before: (T, T) -> bool, index: nat) returns (moved: bool)
      requires Valid() && index < |items|
      modifies `sparse, `items, `meta
      ensures Valid() && View() == old(View())
      ensures
        var to := Stop(old(items), before, old(items)[index], index);
        items == Rotate(old(items), to, index) && meta == Rotate(old(meta), to, index) && moved == (to != index)
    {
      hide Linked, Chained, Stamped, Live, Rotate, Stop;
      SlotInRange(sparse, meta, 0);
      ghost var sparse0, items0, meta0 := sparse, items, meta;
      var j := ShiftSlots(before, index);
      moved := j != index;
      LastSlot(sparse0, meta0, j, index, sparse);
      var slot := meta[index];
      Rotated(sparse0, items0, meta0, queue, advances, itemType, j, index, sparse[slot := sparse[slot].(index := j)]);
      MoveBlock(j, index);
      if moved {
        sparse := sparse[slot := sparse[slot].(index := j)];
      }
    }

    // memmove of the elements between, then the saved element into the gap.
    method MoveBlock(j: nat, index: nat)
      requires j <= index < |items| == |meta|
      modifies `items, `meta
      ensures items == Rotate(old(items), j, index) && meta == Rotate(old(meta), j, index)
    {
      BlockMove(items, j, index);
      BlockMove(meta, j, index);
      if j != index {
        var tmp, tmpMeta := items[index], meta[index];
        items := items[..j + 1] + items[j..index] + items[index + 1..];
        meta := meta[..j + 1] + meta[j..index] + meta[index + 1..];
        items := items[j := tmp];
        meta := meta[j := tmpMeta];
      }
    }

    // Inserts the item at `index` one place at a time, with a limit on the
    // total number of swaps (0: none). The branch for all other items.
    method SinkOneByOne(before: (T, T) -> bool, index: nat, maxSwaps: nat, used: nat) returns (swaps: nat)
      requires Valid() && index < |items| && (maxSwaps == 0 || used < maxSwaps)
      modifies `sparse, `items, `meta
      ensures Valid() && View() == old(View())
      ensures
        var to := Target(old(items), before, index, maxSwaps, used);
        items == Rotate(old(items), to, index) && meta == Rotate(old(meta), to, index) && swaps == used + (index - to)
    {
      hide Linked, Chained, Stamped, Live, Rotate, Stop, StopWithin;
      SlotInRange(sparse, meta, 0);
      ghost var sparse0, items0, meta0 := sparse, items, meta;
      var tmp, tmpMeta := items[index], meta[index];
      var j;
      j, swaps := ShiftItems(before, index, maxSwaps, used);
      LastSlot(sparse0, meta0, j, index, sparse);
      Rotated(sparse0, items0, meta0, queue, advances, itemType, j, index, sparse[tmpMeta := sparse[tmpMeta].(index := j)]);
      FillHole(items0, items, j, index);
      FillHole(meta0, meta, j, index);
      if j != index {
        items := items[j := tmp];
        meta := meta[j := tmpMeta];
        sparse := sparse[meta[j] := sparse[meta[j]].(index := j)];
      }
    }

    method ShiftItems(before: (T, T) -> bool, index: nat, maxSwaps: nat, used: nat) returns (j: nat, swaps: nat)
      requires |items| == |meta| && index < |items| && Linked(sparse, meta) && (maxSwaps == 0 || used < maxSwaps)
      modifies `sparse, `items, `meta
      ensures j == Target(old(items), before, index, maxSwaps, used) && swaps == used + (index - j)
      ensures Hole(old(items), items, j, index) && Hole(old(meta), meta, j, index)
      ensures Shifting(old(sparse), old(meta), j, index, sparse)
    {
      hide Linked, Stop, StopWithin, Shifting;
      j, swaps := index, used;
      var tmp := items[index];
      ghost var sparse0, items0, meta0 := sparse, items, meta;
      SlotInRange(sparse, meta, 0);
      NoShift(sparse, meta, index);
      while j > 0 && (maxSwaps == 0 || swaps < maxSwaps) && before(items[j - 1], tmp)
        invariant j <= index && swaps == used + (index - j) && (maxSwaps == 0 || swaps <= maxSwaps)
        invariant Scan(items0, before, tmp, index, maxSwaps, used) == Scan(items0, before, tmp, j, maxSwaps, swaps)
        invariant Hole(items0, items, j, index) && Hole(meta0, meta, j, index)
        invariant Shifting(sparse0, meta0, j, index, sparse)
      {
        ScanStep(items0, before, tmp, j, maxSwaps, swaps);
        ShiftOne(sparse0, meta0, j, index, sparse);
        assert meta[j - 1] == meta0[j - 1];
        items := items[j := items[j - 1]];
        meta := meta[j := meta[j - 1]];
        sparse := sparse[meta[j] := sparse[meta[j]].(index := j)];
        j := j - 1;
        swaps := swaps + 1;
      }
      ScanStop(items0, before, tmp, j, maxSwaps, swaps);
    }

    method ShiftSlots(before: (T, T) -> bool, index: nat) returns (j: nat)
      requires |items| == |meta| && index < |items| && Linked(sparse, meta)
      modifies `sparse
      ensures j == Stop(items, before, items[index], index)
      ensures Shifting(old(sparse), meta, j, index, sparse)
    {
      j := index;
      ghost var sparse0 := sparse;
      while j > 0 && before(items[j - 1], items[index])
        invariant j <= index
        invariant Stop(items, before, items[index], index) == Stop(items, before, items[index], j)
        invariant Shifting(sparse0, meta, j, index, sparse)
      {
        ShiftOne(sparse0, meta, j, index, sparse);
        sparse := sparse[meta[j - 1] := sparse[meta[j - 1]].(index := j)];
        j := j - 1;
      }
    }
  }

  // ----- what a caller gets -----

  // Whatever was erased, and whatever the flag said before, an unlimited
  // Defragment afterwards orders the items.
  method EraseThenDefragment<T(!new)>(table: Table<T>, handles: seq<Word>, before: (T, T) -> bool, blockMove: bool)
    returns (count: nat, swaps: nat)
    requires table.Valid() && StrictWeakOrder(before)
    modifies table
    ensures table.Valid() && table.View() == EraseAll(old(table.View()), handles, table.itemType)
    ensures count > 0 || old(table.fragmented) ==> Settled(table.items, before, |table.items|)
  {
    count := table.EraseItems(handles);
    table.SizesMatch();
    ghost var d := Dense(table.items, table.meta);
    swaps := table.Defragment(before, 0, blockMove);
    SweepSettles(d, before, |d.items|);
  }

  // So does one after an insertion.
  method InsertThenDefragment<T(!new)>(table: Table<T>, item: T, before: (T, T) -> bool, blockMove: bool)
    returns (handle: Word, swaps: nat)
    requires table.Valid() && |table.items| < NIL && StrictWeakOrder(before)
    modifies table
    ensures table.Valid() && table.View() == old(table.View()).Insert(item)
    ensures Settled(table.items, before, |table.items|)
  {
    handle := table.Insert(item);
    table.SizesMatch();
    ghost var d := Dense(table.items, table.meta);
    swaps := table.Defragment(before, 0, blockMove);
    SweepSettles(d, before, |d.items|);
  }

  // ----- one turn of the defragmentation loop -----

  function Upto(index: nat, size: nat): nat { if index <= size then index else size }

  function Step<T>(d: Dense<T>, before: (T, T) -> bool, index: nat, maxSwaps: nat, blockMove: bool, used: nat): Progress<T>
    requires index < |d.items| == |d.meta| && (maxSwaps == 0 || used < maxSwaps)
  {
    if blockMove then
      var to := Stop(d.items, before, d.items[index], index);
      Progress(Dense(Rotate(d.items, to, index), Rotate(d.meta, to, index)), if to == index then used else used + 1)
    else
      var to := Target(d.items, before, index, maxSwaps, used);
      Progress(Dense(Rotate(d.items, to, index), Rotate(d.meta, to, index)), used + (index - to))
  }

  lemma NothingSwept<T>(start: Dense<T>, before: (T, T) -> bool, maxSwaps: nat, blockMove: bool)
    requires |start.items| == |start.meta|
    ensures Swept(start, before, Upto(1, |start.items|), maxSwaps, blockMove) == Progress(start, 0)
    ensures |start.items| > 1 ==> Swept(start, before, 1, maxSwaps, blockMove) == Progress(start, 0)
  {
  }

  lemma SweptNext<T>(start: Dense<T>, before: (T, T) -> bool, index: nat, maxSwaps: nat, blockMove: bool)
    requires |start.items| == |start.meta| && 1 <= index < |start.items|
    requires maxSwaps == 0 || Swept(start, before, index, maxSwaps, blockMove).swaps < maxSwaps
    ensures
      var now := Swept(start, before, index, maxSwaps, blockMove);
      Swept(start, before, index + 1, maxSwaps, blockMove) == Step(now.dense, before, index, maxSwaps, blockMove, now.swaps)
  {
    hide Rotate, Stop, StopWithin;
  }

  // When the loop ends at `index`.
  lemma SweptEnds<T>(start: Dense<T>, before: (T, T) -> bool, index: nat, maxSwaps: nat, blockMove: bool)
    requires |start.items| == |start.meta| && 1 <= index && (index <= |start.items| || |start.items| == 0)
    requires index < |start.items| ==> maxSwaps > 0 && Swept(start, before, index, maxSwaps, blockMove).swaps == maxSwaps
    requires 1 < index <= |start.items| && maxSwaps > 0 ==>
               Swept(start, before, index - 1, maxSwaps, blockMove).swaps < maxSwaps
    ensures
      var n := |start.items|;
      && Swept(start, before, Upto(index, n), maxSwaps, blockMove) == Swept(start, before, n, maxSwaps, blockMove)
      && (n > 0 ==> (index == n <==> !Interrupted(start, before, maxSwaps, blockMove)))
      && (n == 0 ==> !Interrupted(start, before, maxSwaps, blockMove))
      && (maxSwaps == 0 || (blockMove && index == n) ==>
            Swept(start, before, n, maxSwaps, blockMove).dense == Sweep(start, before, n))
  {
    hide Sweep, BlockSweep, LimitedSweep;
    var n := |start.items|;
    if index < n {
      SweptReached(start, before, index, n, maxSwaps, blockMove);
      SweptReached(start, before, index, n - 1, maxSwaps, blockMove);
    } else if n > 0 && maxSwaps > 0 && blockMove {
      OneSwept(start, before, maxSwaps);
      BlockFlagTruthful(start, before, maxSwaps);
    }
  }

  lemma OneSwept<T>(start: Dense<T>, before: (T, T) -> bool, maxSwaps: nat)
    requires |start.items| == |start.meta| && maxSwaps > 0
    ensures BlockSweep(start, before, 0, maxSwaps) == Progress(start, 0)
  {
  }

  // Where the element-by-element scan stops, with or without a limit.
  function Scan<T>(items: seq<T>, before: (T, T) -> bool, x: T, j: nat, maxSwaps: nat, used: nat): (k: nat)
    requires j <= |items| && (maxSwaps == 0 || used <= maxSwaps)
    ensures k <= j
  {
    if maxSwaps == 0 then Stop(items, before, x, j) else StopWithin(items, before, x, j, maxSwaps - used)
  }

  function Target<T>(items: seq<T>, before: (T, T) -> bool, index: nat, maxSwaps: nat, used: nat): (k: nat)
    requires index < |items| && (maxSwaps == 0 || used <= maxSwaps)
    ensures k <= index
  {
    Scan(items, before, items[index], index, maxSwaps, used)
  }

  lemma ScanStep<T>(items: seq<T>, before: (T, T) -> bool, x: T, j: nat, maxSwaps: nat, used: nat)
    requires 0 < j <= |items| && (maxSwaps == 0 || used < maxSwaps) && before(items[j - 1], x)
    ensures Scan(items, before, x, j, maxSwaps, used) == Scan(items, before, x, j - 1, maxSwaps, used + 1)
  {
  }

  lemma ScanStop<T>(items: seq<T>, before: (T, T) -> bool, x: T, j: nat, maxSwaps: nat, used: nat)
    requires j <= |items| && (maxSwaps == 0 || used <= maxSwaps)
    requires j == 0 || (maxSwaps != 0 && used == maxSwaps) || !before(items[j - 1], x)
    ensures Scan(items, before, x, j, maxSwaps, used) == j
  {
  }

  // Elements [j, index) have been copied one place to the right.
  ghost predicate Hole<A>(s: seq<A>, t: seq<A>, j: nat, index: nat) {
    && j <= index < |s| == |t|
    && (forall k :: 0 <= k <= j ==> t[k] == s[k])
    && (forall k :: j < k <= index ==> t[k] == s[k - 1])
    && (forall k :: index < k < |s| ==> t[k] == s[k])
  }

  lemma FillHole<A>(s: seq<A>, t: seq<A>, j: nat, index: nat)
    requires Hole(s, t, j, index)
    ensures t[j := s[index]] == Rotate(s, j, index)
    ensures j == index ==> t == Rotate(s, j, index)
  {
  }

  lemma NoShift(sparse: seq<Word>, meta: seq<nat>, index: nat)
    requires Linked(sparse, meta)
    ensures Shifting(sparse, meta, index, index, sparse)
  {
  }

  // Slots of dense positions [j, index) already point one place to the right.
  ghost predicate Shifting(sparse: seq<Word>, meta: seq<nat>, j: nat, index: nat, after: seq<Word>) {
    && |after| == |sparse|
    && (forall d :: 0 <= d < |meta| ==> meta[d] < |sparse|)
    && (forall d :: 0 <= d < |meta| ==>
          after[meta[d]] == sparse[meta[d]].(index := if j <= d < index then d + 1 else d))
    && (forall s :: 0 <= s < |sparse| && sparse[s].free ==> after[s] == sparse[s])
  }

  lemma ShiftOne(sparse: seq<Word>, meta: seq<nat>, j: nat, index: nat, after: seq<Word>)
    requires Linked(sparse, meta) && 0 < j <= index < |meta| && Shifting(sparse, meta, j, index, after)
    ensures meta[j - 1] < |after|
    ensures Shifting(sparse, meta, j - 1, index, after[meta[j - 1] := after[meta[j - 1]].(index := j)])
  {
    forall d | 0 <= d < |meta| && d != j - 1 ensures meta[d] != meta[j - 1] {
      assert sparse[meta[d]].index == d && sparse[meta[j - 1]].index == j - 1;
    }
  }

  lemma LastSlot(sparse: seq<Word>, meta: seq<nat>, j: nat, index: nat, after: seq<Word>)
    requires Linked(sparse, meta) && j <= index < |meta| && Shifting(sparse, meta, j, index, after)
    ensures meta[index] < |after|
    ensures Followed(sparse, meta, j, index, after[meta[index] := after[meta[index]].(index := j)])
    ensures j == index ==> after[meta[index] := after[meta[index]].(index := j)] == after
  {
    forall d | 0 <= d < |meta| && d != index ensures meta[d] != meta[index] {
      assert sparse[meta[d]].index == d && sparse[meta[index]].index == index;
    }
  }

  lemma BlockMove<A>(s: seq<A>, j: nat, index: nat)
    requires j <= index < |s|
    ensures (s[..j + 1] + s[j..index] + s[index + 1..])[j := s[index]] == Rotate(s, j, index)
    ensures j == index ==> Rotate(s, j, index) == s
    ensures Rotate(s, j, index)[j] == s[index]
  {
  }

  lemma QueueInRange(sparse: seq<Word>, queue: seq<nat>)
    requires Chained(sparse, queue)
    ensures forall k :: 0 <= k < |queue| ==> queue[k] < |sparse| && sparse[queue[k]].free
  {
  }

  lemma FreshSlot<T>(sparse: seq<Word>, items: seq<T>, meta: seq<nat>, handle: Word, item: T)
    requires Linked(sparse, meta) && Chained(sparse, []) && |sparse| == |items| == |meta|
    requires handle.index == |sparse| && !handle.free
    ensures Linked(sparse + [handle], meta + [|sparse|])
    ensures Chained(sparse + [handle], [])
    ensures Live(sparse + [handle], items + [item], meta + [|sparse|]) == Live(sparse, items, meta)[|sparse| := item]
  {
  }

  // The front of the freelist, taken into use.
  ghost function Reuse(sparse: seq<Word>, slot: nat, index: nat): seq<Word>
    requires slot < |sparse|
  {
    sparse[slot := sparse[slot].(free := false).(index := index)]
  }

  lemma ReusedSlot<T>(sparse: seq<Word>, items: seq<T>, meta: seq<nat>, queue: seq<nat>, item: T)
    requires Linked(sparse, meta) && Chained(sparse, queue) && |items| == |meta| && queue != []
    requires |sparse| <= NIL
    ensures queue[0] < |sparse| && sparse[queue[0]].index == After(queue, 0)
    ensures After(queue, 0) == NIL <==> |queue| == 1
    ensures Linked(Reuse(sparse, queue[0], |items|), meta + [queue[0]])
    ensures Chained(Reuse(sparse, queue[0], |items|), queue[1..])
    ensures Live(Reuse(sparse, queue[0], |items|), items + [item], meta + [queue[0]])
         == Live(sparse, items, meta)[queue[0] := item]
  {
    ReusedLinked(sparse, meta, queue[0]);
    ReusedChained(sparse, queue, |items|);
  }

  lemma ReusedLinked(sparse: seq<Word>, meta: seq<nat>, slot: nat)
    requires Linked(sparse, meta) && slot < |sparse| && sparse[slot].free
    ensures Linked(Reuse(sparse, slot, |meta|), meta + [slot])
  {
    var reused := Reuse(sparse, slot, |meta|);
    var meta' := meta + [slot];
    forall s | 0 <= s < |reused| && !reused[s].free
      ensures reused[s].index < |meta'| && meta'[reused[s].index] == s
    {
    }
  }

  lemma ReusedChained(sparse: seq<Word>, queue: seq<nat>, index: nat)
    requires Chained(sparse, queue) && queue != []
    ensures Chained(Reuse(sparse, queue[0], index), queue[1..])
  {
    var rest := queue[1..];
    var reused := Reuse(sparse, queue[0], index);
    forall k | 0 <= k < |rest|
      ensures rest[k] < |reused| && reused[rest[k]].free && reused[rest[k]].index == After(rest, k)
    {
      assert rest[k] == queue[k + 1] && After(rest, k) == After(queue, k + 1);
    }
    forall s | 0 <= s < |reused| && reused[s].free ensures s in rest {
      assert s in queue && s != queue[0];
    }
  }

  lemma SlotInRange(sparse: seq<Word>, meta: seq<nat>, slot: nat)
    requires Linked(sparse, meta)
    ensures slot < |sparse| && !sparse[slot].free ==> sparse[slot].index < |meta| && meta[sparse[slot].index] == slot
    ensures forall d :: 0 <= d < |meta| ==> meta[d] < |sparse| && !sparse[meta[d]].free && sparse[meta[d]].index == d
  {
  }

  // A live slot pushed to the back of the freelist.
  ghost function Release(sparse: seq<Word>, slot: nat): seq<Word>
    requires slot < |sparse|
  {
    sparse[slot := sparse[slot].(free := true).NewGeneration().(index := NIL)]
  }

  lemma Appended(sparse: seq<Word>, queue: seq<nat>, slot: nat)
    requires Chained(sparse, queue) && slot < |sparse| && !sparse[slot].free
    ensures queue == [] ==> Chained(Release(sparse, slot), [slot])
    ensures queue != [] ==>
              var back := queue[|queue| - 1];
              && back < |sparse| && back != slot
              && Chained(Release(sparse, slot)[back := Release(sparse, slot)[back].(index := slot)], queue + [slot])
  {
    if queue != [] {
      var back := queue[|queue| - 1];
      var freed := Release(sparse, slot);
      var linked := freed[back := freed[back].(index := slot)];
      forall k | 0 <= k < |queue| ensures queue[k] != slot { }
      AppendedLinks(sparse, queue, slot, linked);
      forall s | 0 <= s < |linked| && linked[s].free ensures s in queue + [slot] {
        if s != slot { assert sparse[s].free; }
      }
    }
  }

  lemma AppendedLinks(sparse: seq<Word>, queue: seq<nat>, slot: nat, linked: seq<Word>)
    requires Distinct(queue) && queue != [] && slot !in queue
    requires forall k :: 0 <= k < |queue| ==>
               queue[k] < |sparse| && sparse[queue[k]].free && sparse[queue[k]].index == After(queue, k)
    requires |linked| == |sparse| && slot < |sparse| && linked[slot].free && linked[slot].index == NIL
    requires forall k :: 0 <= k < |queue| - 1 ==> linked[queue[k]] == sparse[queue[k]]
    requires linked[queue[|queue| - 1]].free && linked[queue[|queue| - 1]].index == slot
    ensures forall k :: 0 <= k < |queue| + 1 ==>
              var q := (queue + [slot])[k];
              q < |linked| && linked[q].free && linked[q].index == After(queue + [slot], k)
    ensures Distinct(queue + [slot])
  {
  }

  lemma LiveWrite(sparse: seq<Word>, queue: seq<nat>, slot: nat, index: nat)
    requires Chained(sparse, queue) && slot < |sparse| && !sparse[slot].free
    ensures Chained(sparse[slot := sparse[slot].(index := index)], queue)
  {
  }

  // Swap-and-pop: the slot of the last item now points at the erased position.
  ghost function Moved(freed: seq<Word>, meta: seq<nat>, position: nat): seq<Word>
    requires position < |meta|
    requires position != |meta| - 1 ==> meta[|meta| - 1] < |freed|
  {
    if position == |meta| - 1 then freed
    else freed[meta[|meta| - 1] := freed[meta[|meta| - 1]].(index := position)]
  }

  function Popped<A>(s: seq<A>, position: nat): seq<A>
    requires position < |s|
  {
    s[position := s[|s| - 1]][..|s| - 1]
  }

  lemma Relinked<T>(sparse: seq<Word>, items: seq<T>, meta: seq<nat>, slot: nat, freed: seq<Word>)
    requires Linked(sparse, meta) && |items| == |meta|
    requires slot < |sparse| && !sparse[slot].free
    requires |freed| == |sparse| && freed[slot].free
    requires forall s :: 0 <= s < |sparse| && s != slot ==>
               freed[s].free == sparse[s].free && (!freed[s].free ==> freed[s] == sparse[s])
    ensures
      var p := sparse[slot].index;
      && p < |meta|
      && (p != |meta| - 1 ==> meta[|meta| - 1] < |freed| && !freed[meta[|meta| - 1]].free)
      && Linked(Moved(freed, meta, p), Popped(meta, p))
      && Live(Moved(freed, meta, p), Popped(items, p), Popped(meta, p)) == Live(sparse, items, meta) - {slot}
  {
    var p, last := sparse[slot].index, |meta| - 1;
    var meta', after := Popped(meta, p), Moved(freed, meta, p);
    forall d | 0 <= d < last
      ensures meta'[d] < |after| && !after[meta'[d]].free && after[meta'[d]].index == d
    {
      if d == p { assert meta'[d] == meta[last]; } else { assert meta'[d] == meta[d]; }
    }
    forall s | 0 <= s < |after| && !after[s].free
      ensures after[s].index < |meta'| && meta'[after[s].index] == s
    {
      assert sparse[s].index != p;
    }
  }

  // Items and reverse links rotated in step, with the slots following them.
  ghost predicate Followed(sparse: seq<Word>, meta: seq<nat>, to: nat, from: nat, after: seq<Word>)
    requires to <= from
  {
    && |after| == |sparse|
    && (forall d :: 0 <= d < |meta| ==> meta[d] < |sparse|)
    && (forall d :: 0 <= d < |meta| ==> after[meta[d]] == sparse[meta[d]].(index := Shifted(d, to, from)))
    && (forall s :: 0 <= s < |sparse| && sparse[s].free ==> after[s] == sparse[s])
  }

  lemma Rotated<T>(sparse: seq<Word>, items: seq<T>, meta: seq<nat>, queue: seq<nat>, advances: seq<nat>,
                   itemType: nat, to: nat, from: nat, after: seq<Word>)
    requires Linked(sparse, meta) && Chained(sparse, queue) && |items| == |meta|
    requires Stamped(sparse, advances, itemType)
    requires to <= from < |meta| && Followed(sparse, meta, to, from, after)
    ensures Linked(after, Rotate(meta, to, from)) && Chained(after, queue)
    ensures Live(after, Rotate(items, to, from), Rotate(meta, to, from)) == Live(sparse, items, meta)
    ensures Stamped(after, advances, itemType)
  {
    hide Rotate, Chained;
    RotatedLinked(sparse, meta, to, from, after);
    RotatedFree(sparse, meta, queue, to, from, after);
    RotateAt(items, to, from);
  }

  lemma RotatedLinked(sparse: seq<Word>, meta: seq<nat>, to: nat, from: nat, after: seq<Word>)
    requires Linked(sparse, meta) && to <= from < |meta| && Followed(sparse, meta, to, from, after)
    ensures Linked(after, Rotate(meta, to, from))
    ensures forall s :: 0 <= s < |sparse| ==> after[s] == sparse[s].(index := after[s].index)
    ensures forall s :: 0 <= s < |sparse| && !sparse[s].free ==> after[s].index == Shifted(sparse[s].index, to, from)
  {
    hide Rotate;
    RotateAt(meta, to, from);
    forall s | 0 <= s < |sparse|
      ensures after[s] == sparse[s].(index := after[s].index)
      ensures !sparse[s].free ==> after[s].index == Shifted(sparse[s].index, to, from)
    {
      if !sparse[s].free { assert meta[sparse[s].index] == s; }
    }
    var meta' := Rotate(meta, to, from);
    forall d | 0 <= d < |meta'|
      ensures meta'[d] < |after| && !after[meta'[d]].free && after[meta'[d]].index == d
    {
      var origin := if d == to then from else if to < d <= from then d - 1 else d;
      assert Shifted(origin, to, from) == d && meta'[d] == meta[origin];
    }
  }

  lemma RotatedFree(sparse: seq<Word>, meta: seq<nat>, queue: seq<nat>, to: nat, from: nat, after: seq<Word>)
    requires Linked(sparse, meta) && Chained(sparse, queue)
    requires to <= from < |meta| && Followed(sparse, meta, to, from, after)
    ensures Chained(after, queue)
  {
    RotatedLinked(sparse, meta, to, from, after);
    forall s | 0 <= s < |sparse| ensures after[s].free == sparse[s].free { }
  }

  // What Clear leaves in slot s.
  ghost function Freed(sparse: seq<Word>, s: nat): Word
    requires s < |sparse|
  {
    sparse[s].(free := true).NewGeneration().(index := if s + 1 < |sparse| then s + 1 else NIL)
  }

  lemma AllFree<T>(sparse: seq<Word>, queue: seq<nat>)
    requires |queue| == |sparse| && forall k :: 0 <= k < |queue| ==> queue[k] == k
    requires forall s :: 0 <= s < |sparse| ==>
               sparse[s].free && sparse[s].index == if s + 1 < |sparse| then s + 1 else NIL
    ensures Chained(sparse, queue)
    ensures Linked(sparse, []) && Live<T>(sparse, [], []) == map[]
  {
    forall s | 0 <= s < |sparse| ensures s in queue { assert queue[s] == s; }
  }

  lemma StampLength(sparse: seq<Word>, advances: seq<nat>, itemType: nat)
    requires Stamped(sparse, advances, itemType)
    ensures |advances| == |sparse|
  {
  }

  lemma AllStamped(sparse: seq<Word>, advances: seq<nat>, itemType: nat, after: seq<Word>, next: seq<nat>)
    requires Stamped(sparse, advances, itemType) && |after| == |sparse| == |advances| == |next|
    requires forall i :: 0 <= i < |next| ==> next[i] == advances[i] + 1
    requires forall s :: 0 <= s < |sparse| ==> after[s] == Freed(sparse, s)
    ensures Stamped(after, next, itemType)
  {
  }

  // There are as many live slots as items.
  lemma LiveSize<T>(sparse: seq<Word>, items: seq<T>, meta: seq<nat>)
    requires Linked(sparse, meta) && |items| == |meta|
    ensures |Live(sparse, items, meta)| == |items|
  {
    var keys := set s: nat | s < |sparse| && !sparse[s].free;
    assert Live(sparse, items, meta).Keys == keys;
    forall s | s in keys ensures s in meta { assert meta[sparse[s].index] == s; }
    forall s | s in meta ensures s in keys { }
    DistinctSize(meta, keys);
  }

  lemma {:induction false} DistinctSize(q: seq<nat>, elements: set<nat>)
    requires Distinct(q)
    requires forall x :: x in q <==> x in elements
    ensures |elements| == |q|
  {
    if q == [] {
      assert elements == {};
    } else {
      assert q == [q[0]] + q[1..];
      DistinctSize(q[1..], elements - {q[0]});
    }
  }
}
