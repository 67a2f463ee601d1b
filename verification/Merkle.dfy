/** Padded binary Merkle trees over any two-to-one hash, addressed by level and index.
    Level 0 holds the leaves; a position past the last leaf holds the empty value. */
module Merkle {
  import opened Powers

  datatype Hasher<!D> = Hasher(node: (D, D) -> D, empty: D)

  /** The plain definition: the node at (level, index) of the full padded tree. */
  function NodeAt<D>(h: Hasher<D>, leaves: seq<D>, level: nat, index: nat): D {
    if level == 0 then if index < |leaves| then leaves[index] else h.empty
    else h.node(NodeAt(h, leaves, level - 1, 2 * index), NodeAt(h, leaves, level - 1, 2 * index + 1))
  }

  /** Leaves go from left to right, and missing ones count as empty. */
  lemma ThreeLeaves<D>(h: Hasher<D>, a: D, b: D, c: D)
    ensures NodeAt(h, [a, b, c], 2, 0) == h.node(h.node(a, b), h.node(c, h.empty))
  {
    var leaves := [a, b, c];
    assert NodeAt(h, leaves, 0, 0) == a && NodeAt(h, leaves, 0, 1) == b && NodeAt(h, leaves, 0, 2) == c;
    assert NodeAt(h, leaves, 0, 3) == h.empty;
    assert NodeAt(h, leaves, 1, 0) == h.node(NodeAt(h, leaves, 0, 0), NodeAt(h, leaves, 0, 1));
    assert NodeAt(h, leaves, 1, 1) == h.node(NodeAt(h, leaves, 0, 2), NodeAt(h, leaves, 0, 3));
  }

  function EmptyAt<D>(h: Hasher<D>, level: nat): D {
    if level == 0 then h.empty else h.node(EmptyAt(h, level - 1), EmptyAt(h, level - 1))
  }

  /** n shifted right by l bits; its parity is bit l of n. */
  function Shift(n: nat, l: nat): nat {
    if l == 0 then n else Shift(n, l - 1) / 2
  }

  lemma {:induction false} ShiftFront(n: nat, l: nat)
    requires l > 0
    ensures Shift(n, l) == Shift(n / 2, l - 1)
  {
    if l > 1 { ShiftFront(n, l - 1); }
  }

  lemma {:induction false} ShiftZero(n: nat, l: nat)
    requires n < Pow2(l)
    ensures Shift(n, l) == 0
  {
    if l > 0 {
      ShiftFront(n, l);
      ShiftZero(n / 2, l - 1);
    }
  }

  lemma {:induction false} ShiftSucc(n: nat, l: nat)
    ensures Shift(n + 1, l) == Shift(n, l) || (Shift(n + 1, l) == Shift(n, l) + 1)
  {
    if l > 0 { ShiftSucc(n, l - 1); }
  }

  /** A subtree wholly to the right of leaf n is empty when no leaf lies past n. */
  lemma {:induction false} EmptyBeyond<D>(h: Hasher<D>, leaves: seq<D>, n: nat, level: nat, index: nat)
    requires |leaves| <= n + 1 && index > Shift(n, level)
    ensures NodeAt(h, leaves, level, index) == EmptyAt(h, level)
  {
    if level > 0 {
      EmptyBeyond(h, leaves, n, level - 1, 2 * index);
      EmptyBeyond(h, leaves, n, level - 1, 2 * index + 1);
    }
  }

  lemma {:induction false} AllEmpty<D>(h: Hasher<D>, level: nat, index: nat)
    ensures NodeAt(h, [], level, index) == EmptyAt(h, level)
  {
    if level > 0 {
      AllEmpty(h, level - 1, 2 * index);
      AllEmpty(h, level - 1, 2 * index + 1);
    }
  }

  /** Appending a leaf changes exactly one node per level: the one above it. */
  lemma {:induction false} AppendElsewhere<D>(h: Hasher<D>, leaves: seq<D>, leaf: D, level: nat, index: nat)
    requires index != Shift(|leaves|, level)
    ensures NodeAt(h, leaves + [leaf], level, index) == NodeAt(h, leaves, level, index)
  {
    if level > 0 {
      AppendElsewhere(h, leaves, leaf, level - 1, 2 * index);
      AppendElsewhere(h, leaves, leaf, level - 1, 2 * index + 1);
    }
  }

  function LeafAt<D>(h: Hasher<D>, leaves: seq<D>, i: nat): D {
    if i < |leaves| then leaves[i] else h.empty
  }

  ghost predicate NodeInjective<D(!new)>(h: Hasher<D>) {
    forall a, b, c, d :: h.node(a, b) == h.node(c, d) ==> a == c && b == d
  }

  /** Under an injective node hash, equal nodes have equal leaves below them. */
  lemma {:induction false} Descend<D(!new)>(h: Hasher<D>, a: seq<D>, b: seq<D>, level: nat, leaf: nat)
    requires NodeInjective(h)
    requires NodeAt(h, a, level, Shift(leaf, level)) == NodeAt(h, b, level, Shift(leaf, level))
    ensures LeafAt(h, a, leaf) == LeafAt(h, b, leaf)
  {
    if level > 0 {
      var i := Shift(leaf, level);
      assert NodeAt(h, a, level - 1, 2 * i) == NodeAt(h, b, level - 1, 2 * i);
      assert NodeAt(h, a, level - 1, 2 * i + 1) == NodeAt(h, b, level - 1, 2 * i + 1);
      assert Shift(leaf, level - 1) == 2 * i || Shift(leaf, level - 1) == 2 * i + 1;
      Descend(h, a, b, level - 1, leaf);
    }
  }

  // ---------- authentication paths ----------

  function Flip(index: nat): nat {
    if index % 2 == 0 then index + 1 else index - 1
  }

  /** What a verifier of a path computes. */
  function Fold<D>(h: Hasher<D>, node: D, siblings: seq<D>, directions: seq<nat>): D
    requires |siblings| == |directions|
  {
    if siblings == [] then node
    else Fold(h, if directions[0] == 0 then h.node(node, siblings[0]) else h.node(siblings[0], node),
              siblings[1..], directions[1..])
  }

  /** A path's siblings and directions are read off the tree from level up. */
  ghost predicate PathFrom<D>(h: Hasher<D>, leaves: seq<D>, leaf: nat, level: nat,
                              siblings: seq<D>, directions: seq<nat>)
  {
    && |siblings| == |directions|
    && (forall k :: 0 <= k < |siblings| ==>
         siblings[k] == NodeAt(h, leaves, level + k, Flip(Shift(leaf, level + k)))
         && directions[k] == Shift(leaf, level + k) % 2)
  }

  lemma {:induction false} PathFolds<D>(h: Hasher<D>, leaves: seq<D>, leaf: nat, level: nat,
                                        siblings: seq<D>, directions: seq<nat>)
    requires PathFrom(h, leaves, leaf, level, siblings, directions)
    ensures Fold(h, NodeAt(h, leaves, level, Shift(leaf, level)), siblings, directions)
            == NodeAt(h, leaves, level + |siblings|, Shift(leaf, level + |siblings|))
    decreases |siblings|
  {
    if siblings != [] {
      var i := Shift(leaf, level);
      var up := NodeAt(h, leaves, level + 1, Shift(leaf, level + 1));
      assert Shift(leaf, level + 1) == i / 2;
      assert siblings[0] == NodeAt(h, leaves, level + 0, Flip(Shift(leaf, level + 0)));
      assert directions[0] == i % 2;
      if i % 2 == 0 {
        assert 2 * (i / 2) == i;
        assert up == h.node(NodeAt(h, leaves, level, i), siblings[0]);
      } else {
        assert 2 * (i / 2) + 1 == i;
        assert up == h.node(siblings[0], NodeAt(h, leaves, level, i));
      }
      forall k | 0 <= k < |siblings[1..]|
        ensures siblings[1..][k] == NodeAt(h, leaves, level + 1 + k, Flip(Shift(leaf, level + 1 + k)))
        ensures directions[1..][k] == Shift(leaf, level + 1 + k) % 2
      {
        assert siblings[1..][k] == siblings[k + 1] && directions[1..][k] == directions[k + 1];
      }
      PathFolds(h, leaves, leaf, level + 1, siblings[1..], directions[1..]);
    }
  }
}
