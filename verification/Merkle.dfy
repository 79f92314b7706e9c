// Model of ComputeMerkleRootHex in src/Blocxxi/Bitcoin/adapter.cpp, for any
// 32-byte hash function. Ids are the 32 bytes in wire order; the source keeps
// them as reversed hexadecimal text.
module Merkle {
  import opened Wrappers
  import opened Bytes

  type HashFunction = seq<Byte> -> Hash32

  // Nodes in a layer of the tree over n leaves.
  function Width(n: nat, level: nat): (w: nat)
    ensures n > 0 ==> w > 0
  {
    if level == 0 then n else (Width(n, level - 1) + 1) / 2
  }

  // Layers above the leaves.
  function Height(n: nat): nat
    requires n > 0
  {
    if n == 1 then 0 else 1 + Height((n + 1) / 2)
  }

  // A node of the tree, top down. A node without a right child uses its left
  // child twice.
  ghost function TreeNode(hash: HashFunction, leaves: seq<Hash32>, level: nat, position: nat): Hash32
    requires position < Width(|leaves|, level)
    decreases level
  {
    if level == 0 then leaves[position]
    else
      var left := TreeNode(hash, leaves, level - 1, 2 * position);
      var right := if 2 * position + 1 < Width(|leaves|, level - 1)
                   then TreeNode(hash, leaves, level - 1, 2 * position + 1) else left;
      hash(left + right)
  }

  lemma {:induction false} HeightAbove(n: nat, level: nat)
    requires n > 0 && level <= Height(n)
    ensures Height(n) == level + Height(Width(n, level))
  {
    if level > 0 {
      HeightAbove(n, level - 1);
    }
  }

  lemma TopIsSingle(n: nat)
    requires n > 0
    ensures Width(n, Height(n)) == 1
  {
    HeightAbove(n, Height(n));
  }

  ghost function Root(hash: HashFunction, leaves: seq<Hash32>): Hash32
    requires |leaves| > 0
  {
    TopIsSingle(|leaves|);
    TreeNode(hash, leaves, Height(|leaves|), 0)
  }

  // One id is its own root; two are hashed left before right; of three the last
  // is paired with itself.
  lemma SmallRoots(hash: HashFunction, a: Hash32, b: Hash32, c: Hash32)
    ensures
      var x: seq<Byte>, y: seq<Byte>, z: seq<Byte> := a, b, c;
      && Root(hash, [a]) == a && Root(hash, [a, b]) == hash(x + y)
      && Root(hash, [a, b, c]) == (var l: seq<Byte>, r: seq<Byte> := hash(x + y), hash(z + z); hash(l + r))
  {
    assert Height(1) == 0 && Height(2) == 1 && Height(3) == 2;
    assert Width(3, 1) == 2;
    assert TreeNode(hash, [a, b, c], 0, 2) == c;
    assert TreeNode(hash, [a, b, c], 1, 1) == (var z: seq<Byte> := c; hash(z + z));
  }

  // ----- a repeated last leaf -----

  lemma {:induction false} RepeatedWidth(n: nat, level: nat)
    requires n % 2 == 1 && level > 0
    ensures Width(n + 1, level) == Width(n, level)
  {
    if level > 1 { RepeatedWidth(n, level - 1); }
  }

  // The parents of the leaves: the last one has its child twice either way.
  lemma RepeatedParent(hash: HashFunction, a: seq<Hash32>, position: nat)
    requires |a| % 2 == 1 && position < Width(|a|, 1) == Width(|a| + 1, 1)
    ensures TreeNode(hash, a + [a[|a| - 1]], 1, position) == TreeNode(hash, a, 1, position)
  {
    var b := a + [a[|a| - 1]];
    var left: seq<Byte> := a[2 * position];
    var right: seq<Byte> := if 2 * position + 1 < |a| then a[2 * position + 1] else left;
    assert right == b[2 * position + 1] && left == b[2 * position];
    assert TreeNode(hash, a, 1, position) == hash(left + right);
    assert TreeNode(hash, b, 1, position) == hash(left + right);
  }

  lemma {:induction false} RepeatedNode(hash: HashFunction, a: seq<Hash32>, level: nat, position: nat)
    requires |a| % 2 == 1 && level > 0 && position < Width(|a|, level) == Width(|a| + 1, level)
    ensures TreeNode(hash, a + [a[|a| - 1]], level, position) == TreeNode(hash, a, level, position)
    decreases level
  {
    if level == 1 {
      RepeatedParent(hash, a, position);
    } else {
      var w := Width(|a|, level - 1);
      RepeatedWidth(|a|, level - 1);
      RepeatedNode(hash, a, level - 1, 2 * position);
      if 2 * position + 1 < w { RepeatedNode(hash, a, level - 1, 2 * position + 1); }
    }
  }

  // Because the last node of an odd layer is used twice, a list of odd length
  // and the list with its last id repeated have the same root.
  lemma RootIgnoresRepeat(hash: HashFunction, a: seq<Hash32>)
    requires |a| % 2 == 1 && |a| > 1
    ensures Root(hash, a + [a[|a| - 1]]) == Root(hash, a)
  {
    TopIsSingle(|a|);
    RepeatedWidth(|a|, Height(|a|));
    RepeatedNode(hash, a, Height(|a|), 0);
  }

  // ----- what a root commits to -----

  // The bytes hashed into an inner node.
  ghost function Pair(hash: HashFunction, leaves: seq<Hash32>, level: nat, position: nat): (pair: seq<Byte>)
    requires level > 0 && position < Width(|leaves|, level)
    ensures |pair| == 64 && hash(pair) == TreeNode(hash, leaves, level, position)
  {
    var left: seq<Byte> := TreeNode(hash, leaves, level - 1, 2 * position);
    var right: seq<Byte> := if 2 * position + 1 < Width(|leaves|, level - 1)
                            then TreeNode(hash, leaves, level - 1, 2 * position + 1) else left;
    left + right
  }

  // No two inner nodes of the two trees, level by level, are a hash collision.
  ghost predicate NoCollision(hash: HashFunction, a: seq<Hash32>, b: seq<Hash32>) {
    forall level: nat, p: nat, r: nat ::
      level > 0 && p < Width(|a|, level) && r < Width(|b|, level)
      && hash(Pair(hash, a, level, p)) == hash(Pair(hash, b, level, r))
      ==> Pair(hash, a, level, p) == Pair(hash, b, level, r)
  }

  // The leaves below a node, 2^level of them: a missing right child is read as
  // its left sibling.
  ghost function Spread(leaves: seq<Hash32>, level: nat, position: nat): (s: seq<Hash32>)
    requires position < Width(|leaves|, level)
    ensures |s| == Leaves(level)
    decreases level
  {
    if level == 0 then [leaves[position]]
    else
      var left := Spread(leaves, level - 1, 2 * position);
      left + if 2 * position + 1 < Width(|leaves|, level - 1) then Spread(leaves, level - 1, 2 * position + 1) else left
  }

  function Leaves(level: nat): nat { if level == 0 then 1 else 2 * Leaves(level - 1) }

  // The right child, or the left one read twice.
  function RightChild(n: nat, level: nat, position: nat): (r: nat)
    requires level > 0 && position < Width(n, level)
    ensures r < Width(n, level - 1) && 2 * position < Width(n, level - 1)
  {
    if 2 * position + 1 < Width(n, level - 1) then 2 * position + 1 else 2 * position
  }

  lemma Halves<A>(a: seq<A>, b: seq<A>, c: seq<A>, d: seq<A>)
    requires |a| == |c| && |b| == |d|
    ensures a + b == c + d <==> a == c && b == d
  {
    if a + b == c + d {
      assert a == (a + b)[..|a|] && c == (c + d)[..|a|];
      assert b == (a + b)[|a|..] && d == (c + d)[|a|..];
    }
  }

  lemma NodeParts(hash: HashFunction, leaves: seq<Hash32>, level: nat, position: nat)
    requires level > 0 && position < Width(|leaves|, level)
    ensures
      var right := RightChild(|leaves|, level, position);
      var l: seq<Byte>, r: seq<Byte> := TreeNode(hash, leaves, level - 1, 2 * position), TreeNode(hash, leaves, level - 1, right);
      && Pair(hash, leaves, level, position) == l + r
      && Spread(leaves, level, position) == Spread(leaves, level - 1, 2 * position) + Spread(leaves, level - 1, right)
  {
  }

  // Without collisions, nodes of one level are equal exactly when their leaves are.
  lemma {:induction false} NodeDetermines(hash: HashFunction, a: seq<Hash32>, b: seq<Hash32>, level: nat, p: nat, r: nat)
    requires NoCollision(hash, a, b) && p < Width(|a|, level) && r < Width(|b|, level)
    ensures TreeNode(hash, a, level, p) == TreeNode(hash, b, level, r) <==> Spread(a, level, p) == Spread(b, level, r)
    decreases level
  {
    hide NoCollision, TreeNode, Spread, Pair, Width;
    if level == 0 {
      LeafNode(hash, a, p);
      LeafNode(hash, b, r);
    } else {
      var x, y := RightChild(|a|, level, p), RightChild(|b|, level, r);
      NodeDetermines(hash, a, b, level - 1, 2 * p, 2 * r);
      NodeDetermines(hash, a, b, level - 1, x, y);
      NodeParts(hash, a, level, p);
      NodeParts(hash, b, level, r);
      NoCollisionAt(hash, a, b, level, p, r);
      var al: seq<Byte>, ar: seq<Byte> := TreeNode(hash, a, level - 1, 2 * p), TreeNode(hash, a, level - 1, x);
      var bl: seq<Byte>, br: seq<Byte> := TreeNode(hash, b, level - 1, 2 * r), TreeNode(hash, b, level - 1, y);
      Halves(al, ar, bl, br);
      Halves(Spread(a, level - 1, 2 * p), Spread(a, level - 1, x), Spread(b, level - 1, 2 * r), Spread(b, level - 1, y));
    }
  }

  lemma LeafNode(hash: HashFunction, leaves: seq<Hash32>, position: nat)
    requires position < Width(|leaves|, 0)
    ensures Width(|leaves|, 0) == |leaves| && TreeNode(hash, leaves, 0, position) == leaves[position]
    ensures Spread(leaves, 0, position) == [leaves[position]]
  {
  }

  lemma NoCollisionAt(hash: HashFunction, a: seq<Hash32>, b: seq<Hash32>, level: nat, p: nat, r: nat)
    requires NoCollision(hash, a, b) && level > 0 && p < Width(|a|, level) && r < Width(|b|, level)
    ensures TreeNode(hash, a, level, p) == TreeNode(hash, b, level, r)
       <==> Pair(hash, a, level, p) == Pair(hash, b, level, r)
  {
  }

  // Lists whose trees have one height have the same root if and only if they
  // have the same leaf at every leaf position.
  lemma RootDetermines(hash: HashFunction, a: seq<Hash32>, b: seq<Hash32>)
    requires |a| > 0 && |b| > 0 && Height(|a|) == Height(|b|) && NoCollision(hash, a, b)
    ensures Width(|a|, Height(|a|)) == 1 == Width(|b|, Height(|b|))
    ensures Root(hash, a) == Root(hash, b) <==> Spread(a, Height(|a|), 0) == Spread(b, Height(|b|), 0)
  {
    TopIsSingle(|a|);
    TopIsSingle(|b|);
    NodeDetermines(hash, a, b, Height(|a|), 0, 0);
  }

  // A layer of the tree, which may stand for the leaves of a lower tree.
  ghost function Layer(hash: HashFunction, leaves: seq<Hash32>, level: nat): (layer: seq<Hash32>)
    ensures |layer| == Width(|leaves|, level)
    ensures forall p :: 0 <= p < |layer| ==> layer[p] == TreeNode(hash, leaves, level, p)
  {
    seq(Width(|leaves|, level), p requires 0 <= p < Width(|leaves|, level) => TreeNode(hash, leaves, level, p))
  }

  lemma {:induction false} WidthAbove(n: nat, base: nat, level: nat)
    ensures Width(Width(n, base), level) == Width(n, base + level)
  {
    if level > 0 { WidthAbove(n, base, level - 1); }
  }

  lemma {:induction false} NodeAbove(hash: HashFunction, leaves: seq<Hash32>, base: nat, level: nat, position: nat)
    requires position < Width(|leaves|, base + level)
    ensures position < Width(|Layer(hash, leaves, base)|, level)
    ensures TreeNode(hash, Layer(hash, leaves, base), level, position) == TreeNode(hash, leaves, base + level, position)
    decreases level
  {
    hide Layer, TreeNode, Pair, Width, Spread;
    var layer := Layer(hash, leaves, base);
    WidthAbove(|leaves|, base, level);
    if level == 0 {
      LeafNode(hash, layer, position);
    } else {
      WidthAbove(|leaves|, base, level - 1);
      assert base + level - 1 == base + (level - 1);
      var right := RightChild(|leaves|, base + level, position);
      NodeAbove(hash, leaves, base, level - 1, 2 * position);
      NodeAbove(hash, leaves, base, level - 1, right);
      NodeParts(hash, layer, level, position);
      NodeParts(hash, leaves, base + level, position);
      assert Pair(hash, layer, level, position) == Pair(hash, leaves, base + level, position);
    }
  }

  // For trees of different heights the ids of the lower one stand against the
  // inner nodes of the higher one.
  lemma RootDeterminesAcross(hash: HashFunction, a: seq<Hash32>, b: seq<Hash32>)
    requires |a| > 0 && |b| > 0 && Height(|a|) <= Height(|b|)
    requires NoCollision(hash, a, Layer(hash, b, Height(|b|) - Height(|a|)))
    ensures
      var h := Height(|a|);
      var c := Layer(hash, b, Height(|b|) - h);
      && |c| > 0 && Width(|a|, h) == 1 == Width(|c|, h)
      && (Root(hash, a) == Root(hash, b) <==> Spread(a, h, 0) == Spread(c, h, 0))
  {
    var h := Height(|a|);
    var base := Height(|b|) - h;
    var c := Layer(hash, b, base);
    hide NoCollision, TreeNode, Spread, Layer, Height, Width, Leaves;
    TopIsSingle(|b|);
    HeightAbove(|b|, base);
    assert base + h == Height(|b|);
    NodeAbove(hash, b, base, h, 0);
    RootDetermines(hash, a, c);
  }

  // The node above leaf i.
  function Ancestor(i: nat, level: nat): nat { if level == 0 then i else Ancestor(i, level - 1) / 2 }

  lemma {:induction false} AncestorExists(i: nat, n: nat, level: nat)
    requires i < n
    ensures Ancestor(i, level) < Width(n, level)
  {
    if level > 0 { AncestorExists(i, n, level - 1); }
  }

  // For lists of one length every leaf stands somewhere in the spread.
  lemma {:induction false} SpreadDetermines(a: seq<Hash32>, b: seq<Hash32>, i: nat, level: nat)
    requires |a| == |b| && i < |a| && Ancestor(i, level) < Width(|a|, level)
    requires Spread(a, level, Ancestor(i, level)) == Spread(b, level, Ancestor(i, level))
    ensures a[i] == b[i]
    decreases level
  {
    if level == 0 {
      assert Spread(a, 0, i)[0] == Spread(b, 0, i)[0];
    } else {
      var p, q := Ancestor(i, level), Ancestor(i, level - 1);
      AncestorExists(i, |a|, level - 1);
      var right := RightChild(|a|, level, p);
      SpreadParts(a, level, p);
      SpreadParts(b, level, p);
      Halves(Spread(a, level - 1, 2 * p), Spread(a, level - 1, right), Spread(b, level - 1, 2 * p), Spread(b, level - 1, right));
      assert q == 2 * p || q == right;
      SpreadDetermines(a, b, i, level - 1);
    }
  }

  lemma SpreadParts(leaves: seq<Hash32>, level: nat, position: nat)
    requires level > 0 && position < Width(|leaves|, level)
    ensures Spread(leaves, level, position)
         == Spread(leaves, level - 1, 2 * position) + Spread(leaves, level - 1, RightChild(|leaves|, level, position))
  {
  }

  // Lists of one length have the same root if and only if they are equal.
  lemma RootDeterminesList(hash: HashFunction, a: seq<Hash32>, b: seq<Hash32>)
    requires 0 < |a| == |b| && NoCollision(hash, a, b)
    ensures Root(hash, a) == Root(hash, b) <==> a == b
  {
    hide NoCollision, Root, Spread;
    RootDetermines(hash, a, b);
    if Root(hash, a) == Root(hash, b) {
      forall i | 0 <= i < |a| ensures a[i] == b[i] {
        AncestorExists(i, |a|, Height(|a|));
        SpreadDetermines(a, b, i, Height(|a|));
      }
    }
  }

  ghost predicate IsLayer(hash: HashFunction, leaves: seq<Hash32>, level: nat, layer: seq<Hash32>) {
    && |layer| == Width(|leaves|, level)
    && forall p :: 0 <= p < |layer| ==> layer[p] == TreeNode(hash, leaves, level, p)
  }

  lemma ParentNode(hash: HashFunction, leaves: seq<Hash32>, level: nat, layer: seq<Hash32>, p: nat)
    requires IsLayer(hash, leaves, level, layer) && 2 * p < |layer|
    ensures p < Width(|leaves|, level + 1)
    ensures var left: seq<Byte> := layer[2 * p];
            var right: seq<Byte> := if 2 * p + 1 < |layer| then layer[2 * p + 1] else left;
            TreeNode(hash, leaves, level + 1, p) == hash(left + right)
  {
  }

  // One turn of the outer loop: pairs hashed into the next layer.
  method NextLayer(hash: HashFunction, ghost leaves: seq<Hash32>, ghost level: nat, given: seq<Hash32>)
    returns (next: seq<Hash32>)
    requires |given| > 1 && IsLayer(hash, leaves, level, given)
    ensures IsLayer(hash, leaves, level + 1, next) && |next| == (|given| + 1) / 2
  {
    hide TreeNode;
    var layer := given;
    if |layer| % 2 != 0 {
      layer := layer + [layer[|layer| - 1]];
    }
    next := [];
    var index := 0;
    while index < |layer|
      invariant index % 2 == 0 && index <= |layer| && |next| == index / 2
      invariant forall p :: 0 <= p < |next| ==> next[p] == TreeNode(hash, leaves, level + 1, p)
    {
      ParentNode(hash, leaves, level, given, index / 2);
      var concatenated: seq<Byte> := layer[index];
      concatenated := concatenated + layer[index + 1];
      next := next + [hash(concatenated)];
      index := index + 2;
    }
  }

  // None for no ids or an id that is not 32 bytes.
  method ComputeRoot(hash: HashFunction, ids: seq<seq<Byte>>) returns (root: Option<Hash32>)
    ensures root.Some? <==> |ids| > 0 && forall i :: 0 <= i < |ids| ==> |ids[i]| == 32
    ensures root.Some? ==> root.value == Root(hash, ids)
  {
    if |ids| == 0 {
      return None;
    }
    var layer: seq<Hash32> := [];
    for i := 0 to |ids|
      invariant |layer| == i && forall j :: 0 <= j < i ==> |ids[j]| == 32 && layer[j] == ids[j]
    {
      if |ids[i]| != 32 {
        return None;
      }
      layer := layer + [ids[i]];
    }
    ghost var leaves := layer;
    ghost var level := 0;
    while |layer| > 1
      invariant |layer| > 0 && IsLayer(hash, leaves, level, layer)
      invariant Height(|leaves|) == level + Height(|layer|)
      decreases |layer|
    {
      layer := NextLayer(hash, leaves, level, layer);
      level := level + 1;
    }
    assert leaves == ids;
    root := Some(layer[0]);
  }
}
