// The insertion sort inside ResourceTable::Defragment
// (src/Nova/Base/ResourceTable.h), as functions on the dense arrays.
module DenseOrder {

  // Where the scan to the left of position j stops: past every neighbour that
  // `before` puts before x.
  function Stop<T>(items: seq<T>, before: (T, T) -> bool, x: T, j: nat): (k: nat)
    requires j <= |items|
    ensures k <= j
    ensures forall i :: k <= i < j ==> before(items[i], x)
    ensures k > 0 ==> !before(items[k - 1], x)
    decreases j
  {
    if j > 0 && before(items[j - 1], x) then Stop(items, before, x, j - 1) else j
  }

  // The element at `from` moves to `to`; those between move one to the right.
  function Rotate<A>(s: seq<A>, to: nat, from: nat): (r: seq<A>)
    requires to <= from < |s|
    ensures |r| == |s|
  {
    s[..to] + [s[from]] + s[to..from] + s[from + 1..]
  }

  // Where Rotate sends position d.
  function Shifted(d: nat, to: nat, from: nat): nat
    requires to <= from
  {
    if d == from then to else if to <= d < from then d + 1 else d
  }

  lemma RotateAt<A>(s: seq<A>, to: nat, from: nat)
    requires to <= from < |s|
    ensures forall d :: 0 <= d < |s| ==> Shifted(d, to, from) < |s| && Rotate(s, to, from)[Shifted(d, to, from)] == s[d]
  {
  }

  lemma RotatePermutes<A>(s: seq<A>, to: nat, from: nat)
    requires to <= from < |s|
    ensures multiset(Rotate(s, to, from)) == multiset(s)
  {
    assert s == s[..to] + s[to..from] + [s[from]] + s[from + 1..];
  }

  // The dense items and their reverse links, in step.
  datatype Dense<T> = Dense(items: seq<T>, meta: seq<nat>)

  // Positions 1 .. k-1 inserted in turn.
  function Sweep<T>(d: Dense<T>, before: (T, T) -> bool, k: nat): (r: Dense<T>)
    requires |d.items| == |d.meta| && k <= |d.items|
    ensures |r.items| == |r.meta| == |d.items|
    decreases k
  {
    if k <= 1 then d
    else
      var p := Sweep(d, before, k - 1);
      var to := Stop(p.items, before, p.items[k - 1], k - 1);
      Dense(Rotate(p.items, to, k - 1), Rotate(p.meta, to, k - 1))
  }

  ghost predicate StrictWeakOrder<T(!new)>(before: (T, T) -> bool) {
    && (forall x :: !before(x, x))
    && (forall x, y, z :: before(x, y) && before(y, z) ==> before(x, z))
    // incomparability is transitive
    && (forall x, y, z :: !before(x, y) && !before(y, x) && !before(y, z) && !before(z, y)
                          ==> !before(x, z) && !before(z, x))
  }

  // No item is `before` a later one.
  ghost predicate Settled<T>(items: seq<T>, before: (T, T) -> bool, k: nat)
    requires k <= |items|
  {
    forall i, j :: 0 <= i < j < k ==> !before(items[i], items[j])
  }

  lemma NotBeforeTransitive<T(!new)>(before: (T, T) -> bool, x: T, y: T, z: T)
    requires StrictWeakOrder(before) && !before(x, y) && !before(y, z)
    ensures !before(x, z)
  {
    assert before(x, z) && before(y, x) ==> before(y, z);
    assert before(x, z) && before(z, y) ==> before(x, y);
  }

  lemma RotateSettles<T(!new)>(items: seq<T>, before: (T, T) -> bool, k: nat)
    requires StrictWeakOrder(before) && k < |items| && Settled(items, before, k)
    ensures Settled(Rotate(items, Stop(items, before, items[k], k), k), before, k + 1)
  {
    var x := items[k];
    var to := Stop(items, before, x, k);
    var r := Rotate(items, to, k);
    forall i, j | 0 <= i < j <= k ensures !before(r[i], r[j]) {
      if i == to {
        // everything that moved right is before x
        assert r[i] == x && r[j] == items[j - 1] && before(items[j - 1], x);
        assert before(x, items[j - 1]) ==> before(x, x);
      } else if j == to {
        assert r[i] == items[i] && r[j] == x;
        if i < to - 1 { NotBeforeTransitive(before, items[i], items[to - 1], x); }
      } else {
        assert r[i] == items[if i < to then i else i - 1] && r[j] == items[if j < to then j else j - 1];
      }
    }
  }

  // The whole sweep sorts and permutes.
  lemma {:induction false} SweepSettles<T(!new)>(d: Dense<T>, before: (T, T) -> bool, k: nat)
    requires StrictWeakOrder(before) && |d.items| == |d.meta| && k <= |d.items|
    ensures Settled(Sweep(d, before, k).items, before, k)
    decreases k
  {
    hide Rotate, Stop;
    if k > 1 {
      SweepSettles(d, before, k - 1);
      RotateSettles(Sweep(d, before, k - 1).items, before, k - 1);
    }
  }

  lemma {:induction false} SweepPermutes<T>(d: Dense<T>, before: (T, T) -> bool, k: nat)
    requires |d.items| == |d.meta| && k <= |d.items|
    ensures multiset(Sweep(d, before, k).items) == multiset(d.items)
    decreases k
  {
    if k > 1 {
      SweepPermutes(d, before, k - 1);
      var p := Sweep(d, before, k - 1);
      RotatePermutes(p.items, Stop(p.items, before, p.items[k - 1], k - 1), k - 1);
    }
  }

  // The documented order, `before` from left to right, comes out exactly when
  // there is nothing to order.
  lemma DocumentedOrderIff<T(!new)>(d: Dense<T>, before: (T, T) -> bool)
    requires StrictWeakOrder(before) && |d.items| == |d.meta|
    ensures
      var r := Sweep(d, before, |d.items|).items;
      (forall i, j :: 0 <= i < j < |r| ==> !before(r[j], r[i]))
      <==> (forall x, y :: x in d.items && y in d.items ==> !before(x, y))
  {
    var r := Sweep(d, before, |d.items|).items;
    SweepSettles(d, before, |d.items|);
    SweepPermutes(d, before, |d.items|);
    assert forall x :: !before(x, x);
    hide Sweep, StrictWeakOrder;
    SameElements(r, d.items);
    OrderedBothWays(r, before);
  }

  lemma OrderedBothWays<T(!new)>(r: seq<T>, before: (T, T) -> bool)
    requires (forall x :: !before(x, x)) && Settled(r, before, |r|)
    ensures (forall i, j :: 0 <= i < j < |r| ==> !before(r[j], r[i])) <==> (forall x, y :: x in r && y in r ==> !before(x, y))
  {
    if forall i, j :: 0 <= i < j < |r| ==> !before(r[j], r[i]) {
      forall x, y | x in r && y in r ensures !before(x, y) {
        var i :| 0 <= i < |r| && r[i] == x;
        var j :| 0 <= j < |r| && r[j] == y;
        if i == j {} else if i < j {} else {}
      }
    } else {
      var i, j :| 0 <= i < j < |r| && before(r[j], r[i]);
      assert r[j] in r && r[i] in r;
    }
  }

  lemma SameElements<A>(s: seq<A>, t: seq<A>)
    requires multiset(s) == multiset(t)
    ensures forall x :: x in s <==> x in t
  {
    assert forall x :: x in s <==> x in multiset(s);
    assert forall x :: x in t <==> x in multiset(t);
  }

  // Two ascending items come out descending.
  lemma AscendingReversed()
    ensures Sweep(Dense([1, 2], [0, 1]), (x: int, y: int) => x < y, 2) == Dense([2, 1], [1, 0])
  {
    var less := (x: int, y: int) => x < y;
    assert Stop([1, 2], less, 2, 1) == 0;
    assert Rotate([1, 2], 0, 1) == [2, 1] && Rotate([0, 1], 0, 1) == [1, 0];
    assert Sweep(Dense([1, 2], [0, 1]), less, 1) == Dense([1, 2], [0, 1]);
  }

  // ----- how many moves a sweep makes -----

  // Elements of s that `before` puts before x.
  function Ahead<T>(s: seq<T>, before: (T, T) -> bool, x: T): (n: nat)
    ensures n <= |s|
  {
    if s == [] then 0 else Ahead(s[..|s| - 1], before, x) + if before(s[|s| - 1], x) then 1 else 0
  }

  // Pairs of positions in the order the sweep undoes.
  function Inversions<T>(s: seq<T>, before: (T, T) -> bool): nat {
    if s == [] then 0 else Inversions(s[..|s| - 1], before) + Ahead(s[..|s| - 1], before, s[|s| - 1])
  }

  // Positions that have such a partner to their left.
  function Displaced<T>(s: seq<T>, before: (T, T) -> bool): nat {
    if s == [] then 0
    else Displaced(s[..|s| - 1], before) + if Ahead(s[..|s| - 1], before, s[|s| - 1]) > 0 then 1 else 0
  }

  lemma {:induction false} AheadConcat<T>(s: seq<T>, t: seq<T>, before: (T, T) -> bool, x: T)
    ensures Ahead(s + t, before, x) == Ahead(s, before, x) + Ahead(t, before, x)
    decreases |t|
  {
    if t == [] {
      assert s + t == s;
    } else {
      var n := |t| - 1;
      AheadConcat(s, t[..n], before, x);
      assert (s + t)[..|s| + n] == s + t[..n];
    }
  }

  lemma {:induction false} AheadAll<T>(s: seq<T>, before: (T, T) -> bool, x: T)
    ensures (forall i :: 0 <= i < |s| ==> before(s[i], x)) ==> Ahead(s, before, x) == |s|
    ensures (forall i :: 0 <= i < |s| ==> !before(s[i], x)) <==> Ahead(s, before, x) == 0
  {
    if s != [] {
      var n := |s| - 1;
      AheadAll(s[..n], before, x);
      assert forall i :: 0 <= i < n ==> s[..n][i] == s[i];
    }
  }

  // In a settled prefix the scan passes exactly the elements that are before x.
  lemma StopCounts<T(!new)>(items: seq<T>, before: (T, T) -> bool, x: T, j: nat)
    requires StrictWeakOrder(before) && j <= |items| && Settled(items, before, j)
    ensures Stop(items, before, x, j) + Ahead(items[..j], before, x) == j
  {
    hide StrictWeakOrder, Ahead;
    var k := Stop(items, before, x, j);
    forall i | 0 <= i < k ensures !before(items[i], x) {
      if i < k - 1 { NotBeforeTransitive(before, items[i], items[k - 1], x); }
    }
    AheadSplit(items, before, x, k, j);
  }

  lemma AheadSplit<T>(items: seq<T>, before: (T, T) -> bool, x: T, k: nat, j: nat)
    requires k <= j <= |items|
    requires (forall i :: 0 <= i < k ==> !before(items[i], x)) && (forall i :: k <= i < j ==> before(items[i], x))
    ensures Ahead(items[..j], before, x) == j - k
  {
    hide Ahead;
    AheadAll(items[..k], before, x);
    AheadAll(items[k..j], before, x);
    AheadConcat(items[..k], items[k..j], before, x);
    assert items[..k] + items[k..j] == items[..j];
  }

  lemma RotatedAhead<T>(s: seq<T>, to: nat, from: nat, before: (T, T) -> bool, x: T)
    requires to <= from < |s|
    ensures Ahead(Rotate(s, to, from)[..from + 1], before, x) == Ahead(s[..from + 1], before, x)
    ensures Rotate(s, to, from)[from + 1..] == s[from + 1..]
  {
    var a, b, c := s[..to], s[to..from], [s[from]];
    assert Rotate(s, to, from)[..from + 1] == a + c + b && s[..from + 1] == a + b + c;
    AheadConcat(a + c, b, before, x);
    AheadConcat(a, c, before, x);
    AheadConcat(a + b, c, before, x);
    AheadConcat(a, b, before, x);
  }

  // The sweep rearranges its prefix and touches nothing behind it.
  lemma {:induction false} SweptPrefix<T>(d: Dense<T>, before: (T, T) -> bool, k: nat, x: T)
    requires |d.items| == |d.meta| && k <= |d.items|
    ensures Ahead(Sweep(d, before, k).items[..k], before, x) == Ahead(d.items[..k], before, x)
    ensures Sweep(d, before, k).items[k..] == d.items[k..]
    decreases k
  {
    hide Rotate, Stop;
    if k > 1 {
      SweptPrefix(d, before, k - 1, x);
      var p := Sweep(d, before, k - 1).items;
      RotatedAhead(p, Stop(p, before, p[k - 1], k - 1), k - 1, before, x);
      assert p[k - 1..][1..] == p[k..] && d.items[k - 1..][1..] == d.items[k..];
      assert p[k - 1] == p[k - 1..][0] == d.items[k - 1..][0] == d.items[k - 1];
      assert p[..k] == p[..k - 1] + [p[k - 1]] && d.items[..k] == d.items[..k - 1] + [d.items[k - 1]];
      AheadConcat(p[..k - 1], [p[k - 1]], before, x);
      AheadConcat(d.items[..k - 1], [d.items[k - 1]], before, x);
    }
  }

  // How far position k travels is read off the unsorted items.
  lemma Travel<T(!new)>(d: Dense<T>, before: (T, T) -> bool, k: nat)
    requires StrictWeakOrder(before) && |d.items| == |d.meta| && k < |d.items|
    ensures
      var p := Sweep(d, before, k).items;
      p[k] == d.items[k] && Stop(p, before, p[k], k) + Ahead(d.items[..k], before, d.items[k]) == k
  {
    hide Stop, Sweep;
    var p := Sweep(d, before, k).items;
    SweptPrefix(d, before, k, d.items[k]);
    assert p[k] == p[k..][0] == d.items[k..][0] == d.items[k];
    SweepSettles(d, before, k);
    StopCounts(p, before, p[k], k);
  }

  // Swaps the full sweep makes up to position k: one for every place an item moves.
  function Swaps<T>(d: Dense<T>, before: (T, T) -> bool, k: nat): nat
    requires |d.items| == |d.meta| && k <= |d.items|
    decreases k
  {
    if k <= 1 then 0
    else
      var p := Sweep(d, before, k - 1);
      Swaps(d, before, k - 1) + (k - 1 - Stop(p.items, before, p.items[k - 1], k - 1))
  }

  // Items the full sweep moves up to position k.
  function Moves<T>(d: Dense<T>, before: (T, T) -> bool, k: nat): nat
    requires |d.items| == |d.meta| && k <= |d.items|
    decreases k
  {
    if k <= 1 then 0
    else
      var p := Sweep(d, before, k - 1);
      Moves(d, before, k - 1) + if Stop(p.items, before, p.items[k - 1], k - 1) == k - 1 then 0 else 1
  }

  lemma {:induction false} MovesAreInversions<T(!new)>(d: Dense<T>, before: (T, T) -> bool, k: nat)
    requires StrictWeakOrder(before) && |d.items| == |d.meta| && k <= |d.items|
    ensures Swaps(d, before, k) == Inversions(d.items[..k], before)
    ensures Moves(d, before, k) == Displaced(d.items[..k], before)
    decreases k
  {
    hide Sweep, Stop, StrictWeakOrder, Ahead;
    if k > 0 {
      MovesAreInversions(d, before, k - 1);
      assert d.items[..k][..k - 1] == d.items[..k - 1];
      if k > 1 { Travel(d, before, k - 1); }
    }
  }

  // ----- the element-by-element branch under a limit on swaps -----

  // The scan of the element-by-element branch, which also stops when no swap is left.
  function StopWithin<T>(items: seq<T>, before: (T, T) -> bool, x: T, j: nat, budget: nat): (k: nat)
    requires j <= |items|
    ensures k <= j <= k + budget
    decreases j
  {
    if j > 0 && budget > 0 && before(items[j - 1], x) then StopWithin(items, before, x, j - 1, budget - 1) else j
  }

  lemma {:induction false} StopWithinIsStop<T>(items: seq<T>, before: (T, T) -> bool, x: T, j: nat, budget: nat)
    requires j <= |items|
    ensures StopWithin(items, before, x, j, budget)
         == if Stop(items, before, x, j) + budget >= j then Stop(items, before, x, j) else j - budget
    decreases j
  {
    if j > 0 && budget > 0 && before(items[j - 1], x) {
      StopWithinIsStop(items, before, x, j - 1, budget - 1);
    }
  }

  datatype Progress<T> = Progress(dense: Dense<T>, swaps: nat)

  // Positions 1 .. k-1 inserted in turn, stopping for good once `limit` swaps are used.
  function LimitedSweep<T>(d: Dense<T>, before: (T, T) -> bool, k: nat, limit: nat): (r: Progress<T>)
    requires |d.items| == |d.meta| && k <= |d.items| && limit > 0
    ensures |r.dense.items| == |r.dense.meta| == |d.items| && r.swaps <= limit
    decreases k
  {
    if k <= 1 then Progress(d, 0)
    else
      var p := LimitedSweep(d, before, k - 1, limit);
      if p.swaps == limit then p
      else
        var to := StopWithin(p.dense.items, before, p.dense.items[k - 1], k - 1, limit - p.swaps);
        Progress(Dense(Rotate(p.dense.items, to, k - 1), Rotate(p.dense.meta, to, k - 1)), p.swaps + (k - 1 - to))
  }

  // Once the limit is used up nothing moves any more.
  lemma {:induction false} LimitReached<T>(d: Dense<T>, before: (T, T) -> bool, k: nat, n: nat, limit: nat)
    requires |d.items| == |d.meta| && k <= n <= |d.items| && limit > 0
    requires k == n || LimitedSweep(d, before, k, limit).swaps == limit
    ensures LimitedSweep(d, before, n, limit) == LimitedSweep(d, before, k, limit)
    decreases n
  {
    hide Rotate, StopWithin;
    if k < n { LimitReached(d, before, k, n - 1, limit); }
  }

  lemma RotateInPlace<A>(s: seq<A>, k: nat)
    requires k < |s|
    ensures Rotate(s, k, k) == s
  {
  }

  lemma RotateEnds<A>(s: seq<A>, to: nat, from: nat)
    requires 0 < to <= from < |s|
    ensures Rotate(s, to, from)[to] == s[from] && Rotate(s, to, from)[to - 1] == s[to - 1]
  {
  }

  // Within the limit the limited sweep is the full sweep.
  lemma {:induction false} WithinLimit<T>(d: Dense<T>, before: (T, T) -> bool, k: nat, limit: nat)
    requires |d.items| == |d.meta| && k <= |d.items| && limit > 0
    requires Swaps(d, before, k) <= limit
    ensures LimitedSweep(d, before, k, limit) == Progress(Sweep(d, before, k), Swaps(d, before, k))
    decreases k
  {
    hide Rotate;
    if k > 1 {
      WithinLimit(d, before, k - 1, limit);
      var p := Sweep(d, before, k - 1);
      StopWithinIsStop(p.items, before, p.items[k - 1], k - 1, limit - Swaps(d, before, k - 1));
      RotateInPlace(p.items, k - 1);
      RotateInPlace(p.meta, k - 1);
    }
  }

  // Beyond the limit some adjacent pair is left in the wrong order.
  lemma {:induction false} BeyondLimit<T>(d: Dense<T>, before: (T, T) -> bool, k: nat, limit: nat)
    requires |d.items| == |d.meta| && k <= |d.items| && limit > 0
    requires Swaps(d, before, k) > limit
    ensures LimitedSweep(d, before, k, limit).swaps == limit
    ensures !Settled(LimitedSweep(d, before, k, limit).dense.items, before, k)
    decreases k
  {
    hide Rotate;
    if Swaps(d, before, k - 1) > limit {
      BeyondLimit(d, before, k - 1, limit);
    } else {
      WithinLimit(d, before, k - 1, limit);
      var p := Sweep(d, before, k - 1);
      var x := p.items[k - 1];
      var spent := Swaps(d, before, k - 1);
      var stop := Stop(p.items, before, x, k - 1);
      StopWithinIsStop(p.items, before, x, k - 1, limit - spent);
      var to := k - 1 - (limit - spent);
      var r := LimitedSweep(d, before, k, limit).dense.items;
      RotateEnds(p.items, to, k - 1);
      assert r[to] == x && r[to - 1] == p.items[to - 1] && before(p.items[to - 1], x);
    }
  }

  // With a limit, the element-by-element branch leaves the items in order if and
  // only if they have no more inversions than the limit allows.
  lemma LimitedSweepSettlesIff<T(!new)>(d: Dense<T>, before: (T, T) -> bool, limit: nat)
    requires StrictWeakOrder(before) && |d.items| == |d.meta| && limit > 0
    ensures Settled(LimitedSweep(d, before, |d.items|, limit).dense.items, before, |d.items|)
       <==> Inversions(d.items, before) <= limit
  {
    hide LimitedSweep, Sweep, Swaps, Inversions;
    MovesAreInversions(d, before, |d.items|);
    assert d.items[..|d.items|] == d.items;
    if Swaps(d, before, |d.items|) <= limit {
      WithinLimit(d, before, |d.items|, limit);
      SweepSettles(d, before, |d.items|);
    } else {
      BeyondLimit(d, before, |d.items|, limit);
    }
  }

  // That branch clears the flag when swaps are left before the last insertion.
  // A cleared flag then tells the truth unless the limit lies strictly between
  // the inversions without the last item and those with it.
  lemma LimitedFlagTruthfulIff<T(!new)>(d: Dense<T>, before: (T, T) -> bool, limit: nat)
    requires StrictWeakOrder(before) && 0 < |d.items| == |d.meta| && limit > 0
    ensures
      var n := |d.items|;
      (LimitedSweep(d, before, n - 1, limit).swaps < limit ==>
         Settled(LimitedSweep(d, before, n, limit).dense.items, before, n))
      <==> !(Inversions(d.items[..n - 1], before) < limit < Inversions(d.items, before))
  {
    hide LimitedSweep, Sweep, Swaps, Inversions, Settled;
    var n := |d.items|;
    LimitedSweepSettlesIff(d, before, limit);
    MovesAreInversions(d, before, n - 1);
    if Swaps(d, before, n - 1) <= limit {
      WithinLimit(d, before, n - 1, limit);
    } else {
      BeyondLimit(d, before, n - 1, limit);
    }
  }

  lemma {:induction false} LimitedSweepPermutes<T>(d: Dense<T>, before: (T, T) -> bool, k: nat, limit: nat)
    requires |d.items| == |d.meta| && k <= |d.items| && limit > 0
    ensures multiset(LimitedSweep(d, before, k, limit).dense.items) == multiset(d.items)
    decreases k
  {
    hide Rotate;
    if k > 1 {
      LimitedSweepPermutes(d, before, k - 1, limit);
      var p := LimitedSweep(d, before, k - 1, limit);
      if p.swaps < limit {
        var to := StopWithin(p.dense.items, before, p.dense.items[k - 1], k - 1, limit - p.swaps);
        RotatePermutes(p.dense.items, to, k - 1);
      }
    }
  }

  // ----- the block-move branch under a limit on moves -----

  // Positions 1 .. k-1 inserted in turn, stopping for good once `limit` items have moved.
  function BlockSweep<T>(d: Dense<T>, before: (T, T) -> bool, k: nat, limit: nat): (r: Progress<T>)
    requires |d.items| == |d.meta| && k <= |d.items| && limit > 0
    ensures |r.dense.items| == |r.dense.meta| == |d.items| && r.swaps <= limit
    decreases k
  {
    if k <= 1 then Progress(d, 0)
    else
      var p := BlockSweep(d, before, k - 1, limit);
      if p.swaps == limit then p
      else
        var to := Stop(p.dense.items, before, p.dense.items[k - 1], k - 1);
        Progress(Dense(Rotate(p.dense.items, to, k - 1), Rotate(p.dense.meta, to, k - 1)),
                 if to == k - 1 then p.swaps else p.swaps + 1)
  }

  lemma {:induction false} BlockReached<T>(d: Dense<T>, before: (T, T) -> bool, k: nat, n: nat, limit: nat)
    requires |d.items| == |d.meta| && k <= n <= |d.items| && limit > 0
    requires k == n || BlockSweep(d, before, k, limit).swaps == limit
    ensures BlockSweep(d, before, n, limit) == BlockSweep(d, before, k, limit)
    decreases n
  {
    hide Rotate, Stop;
    if k < n { BlockReached(d, before, k, n - 1, limit); }
  }

  lemma {:induction false} BlockWithinLimit<T>(d: Dense<T>, before: (T, T) -> bool, k: nat, limit: nat)
    requires |d.items| == |d.meta| && k <= |d.items| && limit > 0
    requires Moves(d, before, k) <= limit
    ensures BlockSweep(d, before, k, limit) == Progress(Sweep(d, before, k), Moves(d, before, k))
    decreases k
  {
    hide Rotate, Stop;
    if k > 1 {
      BlockWithinLimit(d, before, k - 1, limit);
      var p := Sweep(d, before, k - 1);
      RotateInPlace(p.items, k - 1);
      RotateInPlace(p.meta, k - 1);
    }
  }

  lemma {:induction false} BlockBeyondLimit<T>(d: Dense<T>, before: (T, T) -> bool, k: nat, limit: nat)
    requires |d.items| == |d.meta| && k <= |d.items| && limit > 0
    requires Moves(d, before, k) > limit
    ensures BlockSweep(d, before, k, limit).swaps == limit
    ensures !Settled(BlockSweep(d, before, k, limit).dense.items, before, k)
    decreases k
  {
    hide Rotate, Stop;
    if Moves(d, before, k - 1) > limit {
      BlockBeyondLimit(d, before, k - 1, limit);
    } else {
      BlockWithinLimit(d, before, k - 1, limit);
      var p := Sweep(d, before, k - 1).items;
      assert before(p[k - 2], p[k - 1]);
    }
  }

  // With a limit, the block-move branch leaves the items in order if and only if
  // no more of them than the limit allows have an earlier item before them.
  lemma BlockSweepSettlesIff<T(!new)>(d: Dense<T>, before: (T, T) -> bool, limit: nat)
    requires StrictWeakOrder(before) && |d.items| == |d.meta| && limit > 0
    ensures Settled(BlockSweep(d, before, |d.items|, limit).dense.items, before, |d.items|)
       <==> Displaced(d.items, before) <= limit
  {
    hide BlockSweep, Sweep, Moves, Displaced;
    MovesAreInversions(d, before, |d.items|);
    assert d.items[..|d.items|] == d.items;
    if Moves(d, before, |d.items|) <= limit {
      BlockWithinLimit(d, before, |d.items|, limit);
      SweepSettles(d, before, |d.items|);
    } else {
      BlockBeyondLimit(d, before, |d.items|, limit);
    }
  }

  // This branch clears the flag only after the full sweep.
  lemma BlockFlagTruthful<T>(d: Dense<T>, before: (T, T) -> bool, limit: nat)
    requires 0 < |d.items| == |d.meta| && limit > 0
    requires BlockSweep(d, before, |d.items| - 1, limit).swaps < limit
    ensures BlockSweep(d, before, |d.items|, limit) == Progress(Sweep(d, before, |d.items|), Moves(d, before, |d.items|))
  {
    var n := |d.items|;
    hide BlockSweep, Sweep, Settled;
    if Moves(d, before, n - 1) <= limit {
      BlockWithinLimit(d, before, n - 1, limit);
      BlockWithinLimit(d, before, n, limit);
    } else {
      BlockBeyondLimit(d, before, n - 1, limit);
    }
  }

  // ----- all four ways to sweep -----

  // A limit of 0 is no limit. Without one the branches differ only in what they count.
  function Swept<T>(d: Dense<T>, before: (T, T) -> bool, k: nat, limit: nat, blockMove: bool): (r: Progress<T>)
    requires |d.items| == |d.meta| && k <= |d.items|
    ensures |r.dense.items| == |r.dense.meta| == |d.items| && (limit > 0 ==> r.swaps <= limit)
  {
    if limit == 0 then Progress(Sweep(d, before, k), if blockMove then Moves(d, before, k) else Swaps(d, before, k))
    else if blockMove then BlockSweep(d, before, k, limit)
    else LimitedSweep(d, before, k, limit)
  }

  lemma SweptReached<T>(d: Dense<T>, before: (T, T) -> bool, k: nat, n: nat, limit: nat, blockMove: bool)
    requires |d.items| == |d.meta| && k <= n <= |d.items| && limit > 0
    requires k == n || Swept(d, before, k, limit, blockMove).swaps == limit
    ensures Swept(d, before, n, limit, blockMove) == Swept(d, before, k, limit, blockMove)
  {
    hide BlockSweep, LimitedSweep;
    if blockMove { BlockReached(d, before, k, n, limit); } else { LimitReached(d, before, k, n, limit); }
  }

  // The loop stopped for lack of swaps before the last insertion.
  predicate Interrupted<T>(d: Dense<T>, before: (T, T) -> bool, limit: nat, blockMove: bool)
    requires |d.items| == |d.meta|
  {
    limit > 0 && |d.items| > 1 && Swept(d, before, |d.items| - 1, limit, blockMove).swaps == limit
  }

  // A concrete case: three ascending items, at most two swaps. The last
  // insertion is started (so the table is then taken to be defragmented) and cut
  // short, and 2 stays ahead of 3.
  lemma CutShort()
    ensures
      var less := (x: int, y: int) => x < y;
      var d := Dense([1, 2, 3], [0, 1, 2]);
      && LimitedSweep(d, less, 2, 2) == Progress(Dense([2, 1, 3], [1, 0, 2]), 1)
      && LimitedSweep(d, less, 3, 2) == Progress(Dense([2, 3, 1], [1, 2, 0]), 2)
      && !Settled(LimitedSweep(d, less, 3, 2).dense.items, less, 3)
      && Swaps(d, less, 3) == 3
  {
    var less := (x: int, y: int) => x < y;
    var d := Dense([1, 2, 3], [0, 1, 2]);
    FirstInsertion(d, less);
    assert StopWithin([2, 1, 3], less, 3, 2, 1) == 1;
    assert Stop([2, 1, 3], less, 3, 2) == 0;
    assert Rotate([2, 1, 3], 1, 2) == [2, 3, 1] && Rotate([1, 0, 2], 1, 2) == [1, 2, 0];
    assert less([2, 3, 1][0], [2, 3, 1][1]);
  }

  lemma FirstInsertion(d: Dense<int>, less: (int, int) -> bool)
    requires d == Dense([1, 2, 3], [0, 1, 2]) && less(1, 2)
    ensures LimitedSweep(d, less, 2, 2) == Progress(Dense([2, 1, 3], [1, 0, 2]), 1)
    ensures Sweep(d, less, 2) == Dense([2, 1, 3], [1, 0, 2]) && Swaps(d, less, 2) == 1
  {
    assert StopWithin(d.items, less, 2, 1, 2) == 0 && Stop(d.items, less, 2, 1) == 0;
    assert Rotate(d.items, 0, 1) == [2, 1, 3] && Rotate(d.meta, 0, 1) == [1, 0, 2];
  }
}
