// What src/Nova/Base/ResourceTable.h promises its users, and runs over it.
//
// `Slots` is what a user of the table sees: which slots are live, the item each
// live slot holds, how often the generation of each slot has been advanced, and
// the order in which free slots will be handed out. The class `Table` holds the
// three arrays and the freelist embedded in the sparse one; every method is
// proved to act on `View()` as the corresponding function on `Slots` does.
module ResourceSlots {
  import opened Wrappers
  import RH = ResourceHandle

  datatype Slots<T> = Slots(advances: seq<nat>, live: map<nat, T>, queue: seq<nat>)
  {
    ghost predicate WellFormed() {
      && (forall s :: s in live ==> s < |advances| && s !in queue)
      && (forall k :: 0 <= k < |queue| ==> queue[k] < |advances|)
      && (forall s: nat :: s < |advances| ==> s in live || s in queue)
      && Distinct(queue)
    }

    // What a handle (slot, generation) resolves to.
    function Resolve(slot: nat, generation: nat): Option<T> {
      if slot in live && slot < |advances| && generation == advances[slot] % RH.GENERATIONS then Some(live[slot]) else None
    }

    // The slot the next insertion uses: the oldest free one, or a new one.
    function NextSlot(): nat { if queue == [] then |advances| else queue[0] }

    function Insert(item: T): Slots<T> {
      if queue == [] then Slots(advances + [0], live[|advances| := item], [])
      else Slots(advances, live[queue[0] := item], queue[1..])
    }

    function Erase(slot: nat, generation: nat): Slots<T> {
      if Resolve(slot, generation).None? then this
      else Slots(advances[slot := advances[slot] + 1], live - {slot}, queue + [slot])
    }

    function Clear(): Slots<T> {
      Slots(seq(|advances|, i requires 0 <= i < |advances| => advances[i] + 1), map[], seq(|advances|, i => i))
    }
  }

  ghost predicate Distinct(q: seq<nat>) {
    forall i, j :: 0 <= i < j < |q| ==> q[i] != q[j]
  }

  // ----- runs -----

  datatype Op<T> = Insert(item: T) | Erase(slot: nat, generation: nat) | Clear | Reset | Defragment

  function Apply<T>(a: Slots<T>, op: Op<T>): Slots<T> {
    match op
    case Insert(item) => a.Insert(item)
    case Erase(slot, generation) => a.Erase(slot, generation)
    case Clear => a.Clear()
    case Reset => Slots([], map[], [])
    case Defragment => a
  }

  lemma ApplyWellFormed<T>(a: Slots<T>, op: Op<T>)
    requires a.WellFormed()
    ensures Apply(a, op).WellFormed()
  {
    var b := Apply(a, op);
    match op
    case Insert(item) =>
      if a.queue != [] {
        assert a.queue == [a.queue[0]] + a.queue[1..];
      }
    case Erase(slot, generation) =>
      if a.Resolve(slot, generation).Some? {
        assert forall s :: s in b.queue <==> s in a.queue || s == slot;
      }
    case Clear =>
      forall s: nat | s < |b.advances| ensures s in b.queue {
        assert b.queue[s] == s;
      }
    case Reset =>
    case Defragment =>
  }

  ghost function Run<T>(a: Slots<T>, ops: seq<Op<T>>): (b: Slots<T>)
    requires a.WellFormed()
    ensures b.WellFormed()
    decreases |ops|
  {
    if ops == [] then a
    else
      ApplyWellFormed(a, ops[0]);
      Run(Apply(a, ops[0]), ops[1..])
  }

  // A handle names the slot and how far its generation had been advanced when
  // the item went in. `Tracks` says what has become of that slot: it has not
  // been advanced and still holds the item, or it has been advanced.
  ghost predicate Tracks<T>(a: Slots<T>, slot: nat, advance: nat, item: T) {
    && slot < |a.advances|
    && advance <= a.advances[slot]
    && (a.advances[slot] == advance ==> slot in a.live && a.live[slot] == item)
  }

  lemma ApplyTracks<T>(a: Slots<T>, op: Op<T>, slot: nat, advance: nat, item: T)
    requires a.WellFormed() && Tracks(a, slot, advance, item) && op != Reset
    ensures Tracks(Apply(a, op), slot, advance, item)
  {
  }

  lemma {:induction false} RunTracks<T>(a: Slots<T>, ops: seq<Op<T>>, slot: nat, advance: nat, item: T)
    requires a.WellFormed() && Tracks(a, slot, advance, item) && Reset !in ops
    ensures Tracks(Run(a, ops), slot, advance, item)
    decreases |ops|
  {
    if ops != [] {
      ApplyTracks(a, ops[0], slot, advance, item);
      ApplyWellFormed(a, ops[0]);
      RunTracks(Apply(a, ops[0]), ops[1..], slot, advance, item);
    }
  }

  // ----- the order of reuse -----

  function Inserts<T>(ops: seq<Op<T>>): nat {
    if ops == [] then 0 else (if ops[0].Insert? then 1 else 0) + Inserts(ops[1..])
  }

  ghost predicate KeepsQueue<T(!new)>(ops: seq<Op<T>>) { Clear !in ops && Reset !in ops }

  // A free slot with k others waiting before it is used by the insertion after
  // the next k, whatever is erased in between.
  lemma {:induction false} WaitsItsTurn<T(!new)>(a: Slots<T>, ops: seq<Op<T>>, k: nat)
    requires a.WellFormed() && KeepsQueue(ops) && Inserts(ops) <= k < |a.queue|
    ensures |Run(a, ops).queue| > k - Inserts(ops) && Run(a, ops).queue[k - Inserts(ops)] == a.queue[k]
    ensures Inserts(ops) == k ==> Run(a, ops).NextSlot() == a.queue[k]
    decreases |ops|
  {
    if ops != [] {
      ApplyWellFormed(a, ops[0]);
      WaitsItsTurn(Apply(a, ops[0]), ops[1..], if ops[0].Insert? then k - 1 else k);
    }
  }

  // After Clear the slots are used in index order.
  lemma ClearInOrder<T(!new)>(a: Slots<T>, ops: seq<Op<T>>, k: nat)
    requires a.WellFormed() && KeepsQueue(ops) && Inserts(ops) == k < |a.advances|
    ensures a.Clear().WellFormed() && Run(a.Clear(), ops).NextSlot() == k
  {
    ApplyWellFormed(a, Clear);
    assert a.Clear() == Apply(a, Clear) && a.Clear().queue[k] == k;
    WaitsItsTurn(a.Clear(), ops, k);
  }

  // A new slot starts at generation 0, a reused one keeps the generation it has.
  lemma InsertedGeneration<T>(a: Slots<T>, item: T)
    requires a.WellFormed()
    ensures
      var slot, b := a.NextSlot(), a.Insert(item);
      && slot < |b.advances| && b.advances[slot] == (if slot < |a.advances| then a.advances[slot] else 0)
      && (slot == |a.advances| <==> forall s: nat :: s < |a.advances| ==> s in a.live)
  {
    if a.queue != [] { assert a.queue[0] !in a.live; }
  }

  // An erased slot goes behind all slots that are free already.
  lemma ErasedLast<T>(a: Slots<T>, slot: nat, generation: nat)
    requires a.WellFormed() && a.Resolve(slot, generation).Some?
    ensures
      var b := a.Erase(slot, generation);
      |b.queue| == |a.queue| + 1 && b.queue[|a.queue|] == slot && forall k :: 0 <= k < |a.queue| ==> b.queue[k] == a.queue[k]
  {
  }

  // The handle an insertion returns was not resolving before, resolves to the
  // item afterwards, and no other handle changes what it resolves to.
  lemma InsertBinds<T>(a: Slots<T>, item: T)
    requires a.WellFormed()
    ensures
      var b := a.Insert(item);
      var slot := a.NextSlot();
      && a.Insert(item).WellFormed()
      && (forall g :: a.Resolve(slot, g) == None)
      && slot < |b.advances|
      && b.Resolve(slot, b.advances[slot] % RH.GENERATIONS) == Some(item)
      && (forall s, g :: s != slot || g != b.advances[slot] % RH.GENERATIONS ==> b.Resolve(s, g) == a.Resolve(s, g))
  {
    ApplyWellFormed(a, Op.Insert(item));
    assert a.NextSlot() !in a.live;
  }

  // Erasing a resolving handle removes exactly that binding.
  lemma EraseUnbinds<T>(a: Slots<T>, slot: nat, generation: nat)
    requires a.WellFormed()
    ensures
      var b := a.Erase(slot, generation);
      && b.WellFormed()
      && b.Resolve(slot, generation) == None
      && (forall s, g :: s != slot || g != generation ==> b.Resolve(s, g) == a.Resolve(s, g))
  {
    ApplyWellFormed(a, Op.Erase(slot, generation));
  }

  // Over every run without Reset, the handle of an inserted item keeps resolving
  // to that item for as long as its slot has not been advanced; once the slot has
  // been advanced (by Erase or Clear) it resolves to nothing until the number of
  // advances since insertion is a positive multiple of 4096.
  lemma StaleHandlesDoNotResolve<T>(a: Slots<T>, item: T, ops: seq<Op<T>>)
    requires a.WellFormed() && Reset !in ops
    ensures
      var slot := a.NextSlot();
      var b := a.Insert(item);
      b.WellFormed() &&
      var c := Run(b, ops);
      && slot < |b.advances| && slot < |c.advances| && b.advances[slot] <= c.advances[slot]
      && var since := c.advances[slot] - b.advances[slot];
         var seen := c.Resolve(slot, b.advances[slot] % RH.GENERATIONS);
         && (since == 0 ==> seen == Some(item))
         && (0 < since < RH.GENERATIONS ==> seen == None)
         && (seen.Some? ==> since % RH.GENERATIONS == 0)
  {
    InsertBinds(a, item);
    var b := a.Insert(item);
    var slot := a.NextSlot();
    RunTracks(b, ops, slot, b.advances[slot], item);
    var c := Run(b, ops);
    CongruentDifference(b.advances[slot], c.advances[slot]);
  }

  lemma CongruentDifference(x: nat, y: nat)
    requires x <= y
    ensures x % 4096 == y % 4096 <==> (y - x) % 4096 == 0
  {
  }

  function Clears<T>(n: nat): (ops: seq<Op<T>>)
    ensures |ops| == n && Reset !in ops
  {
    if n == 0 then [] else [Op.Clear] + Clears(n - 1)
  }

  lemma {:induction false} ClearsAdvance<T>(a: Slots<T>, n: nat)
    requires a.WellFormed() && |a.advances| == 1
    ensures |Run(a, Clears(n)).advances| == 1
    ensures Run(a, Clears(n)).advances[0] == a.advances[0] + n
    ensures n > 0 ==> Run(a, Clears(n)).queue == [0]
    decreases n
  {
    if n > 0 {
      ApplyWellFormed(a, Op.Clear);
      var b := Apply(a, Op.Clear);
      assert Clears<T>(n)[1..] == Clears(n - 1);
      assert Run(a, Clears(n)) == Run(b, Clears(n - 1));
      ClearsAdvance(b, n - 1);
      if n == 1 { assert b.queue == [0]; }
    }
  }

  // The bound is tight: after exactly 4096 advances the old handle of slot 0
  // resolves again, to whatever item the slot was given since.
  lemma GenerationWraps<T>(first: T, second: T)
    ensures
      var a := Slots([], map[], []).Insert(first);
      a.WellFormed() && a.Resolve(0, 0) == Some(first) &&
      var b := Run(a, Clears(RH.GENERATIONS)).Insert(second);
      b.WellFormed() && b.Resolve(0, 0) == Some(second)
  {
    InsertBinds(Slots([], map[], []), first);
    var a := Slots([], map[], []).Insert(first);
    ClearsAdvance(a, RH.GENERATIONS);
    InsertBinds(Run(a, Clears(RH.GENERATIONS)), second);
  }
}
