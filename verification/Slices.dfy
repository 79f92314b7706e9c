// A piece standing at an offset of a longer sequence.
module Slices {

  ghost predicate At<A(!new)>(s: seq<A>, offset: nat, piece: seq<A>) {
    offset + |piece| <= |s| && s[offset..offset + |piece|] == piece
  }

  lemma AtConcat<A(!new)>(s: seq<A>, offset: nat, a: seq<A>, b: seq<A>)
    ensures At(s, offset, a + b) <==> At(s, offset, a) && At(s, offset + |a|, b)
  {
    if At(s, offset, a + b) {
      assert s[offset..offset + |a|] == (a + b)[..|a|] == a;
      assert s[offset + |a|..offset + |a| + |b|] == (a + b)[|a|..] == b;
    }
    if At(s, offset, a) && At(s, offset + |a|, b) {
      assert s[offset..offset + |a + b|] == s[offset..offset + |a|] + s[offset + |a|..offset + |a| + |b|];
    }
  }
}
