/** The observer-enrollment service: a sparse Merkle node table with default-empty nodes, one root
    row per enrollment, and authentication paths served from the table. */
module Enrollment {
  import opened Merkle
  import opened Wrappers
  import opened Powers

  /** Field elements; the two-input Poseidon hash is a parameter. */
  type Felt = nat
  type Key = string

  datatype Row = Row(key: Key, commitment: Felt, leafIndex: int, leaf: Felt)
  datatype RootRow = RootRow(revision: int, root: Felt, leafCount: int, createdAt: int)
  datatype Path = Path(leaf: Felt, leafIndex: int, siblings: seq<Felt>, directions: seq<nat>,
                       root: Felt, revision: int)
  datatype Error = InvalidAttestation | AlreadyEnrolled | TreeFull | UnknownObserver
  datatype Batch = Nothing | Snapshot(row: RootRow, oldestPendingAt: int) | Disagree

  const OBSERVER_CLASS: nat := 1

  // ---------- queries over the tables ----------

  function FindKey(rows: seq<Row>, key: Key): (r: seq<Row>)
    ensures |r| <= 1
    ensures r == [] <==> forall i :: 0 <= i < |rows| ==> rows[i].key != key
    ensures r != [] ==> r[0] in rows && r[0].key == key
  {
    if rows == [] then []
    else if rows[|rows| - 1].key == key then [rows[|rows| - 1]]
    else FindKey(rows[..|rows| - 1], key)
  }

  predicate Taken(rows: seq<Row>, commitment: Felt) {
    exists i :: 0 <= i < |rows| && rows[i].commitment == commitment
  }

  /** SELECT MAX(leaf_index), or -1 on an empty table. */
  function MaxIndex(rows: seq<Row>): (m: int)
    ensures m >= -1
    ensures forall i :: 0 <= i < |rows| ==> rows[i].leafIndex <= m
    ensures m >= 0 ==> exists i :: 0 <= i < |rows| && rows[i].leafIndex == m
  {
    if rows == [] then -1
    else
      var m := MaxIndex(rows[..|rows| - 1]);
      var last := rows[|rows| - 1].leafIndex;
      if last > m then last else m
  }

  predicate MayEnroll(rows: seq<Row>, key: Key, commitment: Felt, capacity: nat) {
    var found := FindKey(rows, key);
    if found == [] then !Taken(rows, commitment) && |rows| < capacity else found[0].commitment == commitment
  }

  /** The key holds another commitment, or another key this one. */
  predicate Conflicts(rows: seq<Row>, key: Key, commitment: Felt) {
    if FindKey(rows, key) == [] then Taken(rows, commitment) else FindKey(rows, key)[0].commitment != commitment
  }

  predicate Newcomer(rows: seq<Row>, key: Key, commitment: Felt) {
    FindKey(rows, key) == [] && !Taken(rows, commitment)
  }

  /** Where keys and commitments are unique, a conflict is a row with one of the two but not the other, a
      newcomer has a row for neither, and the rest are enrolled already. */
  lemma ConflictMeans(rows: seq<Row>, key: Key, commitment: Felt)
    requires forall i, j :: 0 <= i < j < |rows| ==>
      rows[i].key != rows[j].key && rows[i].commitment != rows[j].commitment
    ensures Conflicts(rows, key, commitment) <==>
      (exists i :: 0 <= i < |rows| && (rows[i].key == key <==> rows[i].commitment != commitment))
    ensures Newcomer(rows, key, commitment) <==>
      (forall i :: 0 <= i < |rows| ==> rows[i].key != key && rows[i].commitment != commitment)
    ensures MayEnroll(rows, key, commitment, |rows| + 1) <==> !Conflicts(rows, key, commitment)
  {
    if FindKey(rows, key) != [] {
      var i :| 0 <= i < |rows| && rows[i] == FindKey(rows, key)[0];
      assert rows[i].key == key;
    }
  }

  function Lookup(h: Hasher<Felt>, nodes: map<(nat, nat), Felt>, level: nat, index: nat): Felt {
    if (level, index) in nodes then nodes[(level, index)] else EmptyAt(h, level)
  }

  function LeavesOf(rows: seq<Row>): seq<Felt> {
    seq(|rows|, i requires 0 <= i < |rows| => rows[i].leaf)
  }

  ghost predicate NodesAgree(h: Hasher<Felt>, nodes: map<(nat, nat), Felt>, leaves: seq<Felt>, depth: nat) {
    forall l: nat, i: nat :: l <= depth ==> Lookup(h, nodes, l, i) == NodeAt(h, leaves, l, i)
  }

  /** While the update climbs: below `level` the table speaks for the longer list. */
  ghost predicate NodesHalfWay(h: Hasher<Felt>, nodes: map<(nat, nat), Felt>, leaves: seq<Felt>, leaf: Felt,
                               level: nat, depth: nat)
  {
    forall l: nat, i: nat :: l <= depth ==>
      Lookup(h, nodes, l, i) == NodeAt(h, if l < level then leaves + [leaf] else leaves, l, i)
  }

  lemma StoreKeepsNodes(h: Hasher<Felt>, nodes: map<(nat, nat), Felt>, leaves: seq<Felt>, leaf: Felt,
                        level: nat, depth: nat)
    requires level <= depth && NodesHalfWay(h, nodes, leaves, leaf, level, depth)
    ensures var index := Shift(|leaves|, level);
      NodesHalfWay(h, nodes[(level, index) := NodeAt(h, leaves + [leaf], level, index)], leaves, leaf,
                   level + 1, depth)
  {
    var index := Shift(|leaves|, level);
    var nodes' := nodes[(level, index) := NodeAt(h, leaves + [leaf], level, index)];
    forall l: nat, i: nat | l <= depth
      ensures Lookup(h, nodes', l, i) == NodeAt(h, if l < level + 1 then leaves + [leaf] else leaves, l, i)
    {
      assert Lookup(h, nodes, l, i) == NodeAt(h, if l < level then leaves + [leaf] else leaves, l, i);
      if l == level && i != index { AppendElsewhere(h, leaves, leaf, level, i); }
    }
  }

  class Service {
    const h: Hasher<Felt>
    const depth: nat
    var rows: seq<Row>
    var nodes: map<(nat, nat), Felt>
    var roots: seq<RootRow>

    ghost predicate Valid() reads this {
      && |rows| <= Pow2(depth)
      && (forall i :: 0 <= i < |rows| ==>
           rows[i].leafIndex == i && rows[i].leaf == h.node(rows[i].commitment, OBSERVER_CLASS))
      && (forall i, j :: 0 <= i < j < |rows| ==>
           rows[i].key != rows[j].key && rows[i].commitment != rows[j].commitment)
      && NodesAgree(h, nodes, LeavesOf(rows), depth)
      && |roots| == |rows| + 1
      && (forall i :: 0 <= i < |roots| ==>
           roots[i] == RootRow(i, NodeAt(h, LeavesOf(rows)[..i], depth, 0), i, roots[i].createdAt))
    }

    /** The root of the full padded tree over every leaf enrolled so far. */
    ghost function Root(): Felt reads this { NodeAt(h, LeavesOf(rows), depth, 0) }

    constructor (hash: (Felt, Felt) -> Felt, depth: nat, now: int)
      ensures Valid() && rows == [] && this.depth == depth && h == Hasher(hash, 0)
      ensures roots == [RootRow(0, Root(), 0, now)]
    {
      this.h := Hasher(hash, 0);
      this.depth := depth;
      rows := [];
      nodes := map[];
      roots := [RootRow(0, EmptyAt(Hasher(hash, 0), depth), 0, now)];
      new;
      assert LeavesOf(rows) == [];
      forall l: nat, i: nat ensures NodeAt(h, [], l, i) == EmptyAt(h, l) { AllEmpty(h, l, i); }
      assert LeavesOf(rows)[..0] == [];
    }

    method UpdateTree(leafIndex: nat, leaf: Felt, now: int)
      requires leafIndex == |rows| - 1 && rows[leafIndex].leaf == leaf && |rows| <= Pow2(depth)
      requires NodesAgree(h, nodes, LeavesOf(rows)[..leafIndex], depth)
      requires roots != [] && roots[|roots| - 1].revision == leafIndex
      modifies this`nodes, this`roots
      ensures NodesAgree(h, nodes, LeavesOf(rows), depth)
      ensures roots == old(roots) + [RootRow(leafIndex + 1, Root(), leafIndex + 1, now)]
    {
      ghost var leaves := LeavesOf(rows)[..leafIndex];
      assert LeavesOf(rows) == leaves + [leaf];
      var index, current := leafIndex, leaf;
      for level := 0 to depth
        invariant index == Shift(leafIndex, level)
        invariant current == NodeAt(h, leaves + [leaf], level, index)
        invariant NodesHalfWay(h, nodes, leaves, leaf, level, depth) && roots == old(roots)
      {
        StoreKeepsNodes(h, nodes, leaves, leaf, level, depth);
        nodes := nodes[(level, index) := current];
        var sibling := Lookup(h, nodes, level, Flip(index));
        assert sibling == NodeAt(h, leaves + [leaf], level, Flip(index));
        assert 2 * (index / 2) == index || 2 * (index / 2) + 1 == index;
        var left := if index % 2 == 0 then current else sibling;
        var right := if index % 2 == 0 then sibling else current;
        assert NodeAt(h, leaves + [leaf], level + 1, index / 2) == h.node(left, right);
        current := h.node(left, right);
        index := index / 2;
      }
      ShiftZero(leafIndex, depth);
      StoreKeepsNodes(h, nodes, leaves, leaf, depth, depth);
      nodes := nodes[(depth, 0) := current];
      assert NodesAgree(h, nodes, leaves + [leaf], depth) by {
        forall l: nat, i: nat | l <= depth
          ensures Lookup(h, nodes, l, i) == NodeAt(h, leaves + [leaf], l, i) {}
      }
      roots := roots + [RootRow(roots[|roots| - 1].revision + 1, current, leafIndex + 1, now)];
    }

    /** The path answered for a row folds its leaf to the root of the whole list. */
    method PathOf(row: Row) returns (path: Path)
      requires Valid() && row in rows
      ensures |path.siblings| == |path.directions| == depth
      ensures path.leaf == row.leaf && path.leafIndex == row.leafIndex
      ensures path.root == Root() && path.revision == |rows|
      ensures Fold(h, path.leaf, path.siblings, path.directions) == path.root
    {
      ghost var leaves := LeavesOf(rows);
      var index: nat := row.leafIndex;
      var siblings: seq<Felt>, directions: seq<nat> := [], [];
      for level := 0 to depth
        invariant |siblings| == |directions| == level && index == Shift(row.leafIndex, level)
        invariant PathFrom(h, leaves, row.leafIndex, 0, siblings, directions)
      {
        siblings := siblings + [Lookup(h, nodes, level, Flip(index))];
        directions := directions + [index % 2];
        index := index / 2;
      }
      PathFolds(h, leaves, row.leafIndex, 0, siblings, directions);
      ShiftZero(row.leafIndex, depth);
      var latest := roots[|roots| - 1];
      assert leaves[..|rows|] == leaves;
      path := Path(row.leaf, row.leafIndex, siblings, directions, latest.root, latest.revision);
    }

    /** attested: the gate accepted the attestation or assertion of the consumed challenge. */
    method Enroll(key: Key, commitment: Felt, attested: bool, now: int) returns (r: Result<Path, Error>)
      requires Valid()
      modifies this
      ensures Valid() && old(rows) <= rows && |rows| <= |old(rows)| + 1
      ensures r.Err? ==> rows == old(rows) && nodes == old(nodes) && roots == old(roots)
      ensures r.Ok? ==>
        FindKey(rows, key) != [] && FindKey(rows, key)[0].commitment == commitment &&
        r.value.leaf == FindKey(rows, key)[0].leaf && r.value.leafIndex == FindKey(rows, key)[0].leafIndex &&
        |r.value.siblings| == |r.value.directions| == depth && r.value.root == Root() &&
        r.value.revision == |rows| &&
        Fold(h, r.value.leaf, r.value.siblings, r.value.directions) == r.value.root
      ensures r.Ok? == (attested && MayEnroll(old(rows), key, commitment, Pow2(depth)))
      ensures r.Ok? ==> (|rows| > |old(rows)| <==> FindKey(old(rows), key) == [])
      ensures r.Ok? && FindKey(old(rows), key) == [] ==>
        rows == old(rows) + [Row(key, commitment, |old(rows)|, h.node(commitment, 1))] &&
        roots == old(roots) + [RootRow(|rows|, Root(), |rows|, now)]
      ensures r == Err(InvalidAttestation) <==> !attested
      ensures r == Err(AlreadyEnrolled) <==> attested && Conflicts(old(rows), key, commitment)
      ensures r == Err(TreeFull) <==> attested && Newcomer(old(rows), key, commitment) && |old(rows)| == Pow2(depth)
      ensures roots == old(roots) || (exists root :: roots == old(roots) + [root] && root.createdAt == now)
    {
      if !attested { return Err(InvalidAttestation); }
      var found := FindKey(rows, key);
      if found == [] {
        if Taken(rows, commitment) { return Err(AlreadyEnrolled); }
        var leafIndex := MaxIndex(rows) + 1;
        assert leafIndex == |rows| by {
          if rows != [] { assert rows[|rows| - 1].leafIndex == |rows| - 1; }
        }
        if leafIndex >= Pow2(depth) { return Err(TreeFull); }
        var leaf := h.node(commitment, OBSERVER_CLASS);
        var row := Row(key, commitment, leafIndex, leaf);
        ghost var before := LeavesOf(rows);
        rows := rows + [row];
        assert LeavesOf(rows) == before + [leaf] && LeavesOf(rows)[..leafIndex] == before;
        UpdateTree(leafIndex, leaf, now);
        forall i | 0 <= i < |roots|
          ensures roots[i] == RootRow(i, NodeAt(h, LeavesOf(rows)[..i], depth, 0), i, roots[i].createdAt)
        {
          if i < |roots| - 1 { assert LeavesOf(rows)[..i] == before[..i]; }
          else { assert LeavesOf(rows)[..i] == LeavesOf(rows); }
        }
        var path := PathOf(row);
        return Ok(path);
      }
      if found[0].commitment != commitment { return Err(AlreadyEnrolled); }
      var path := PathOf(found[0]);
      return Ok(path);
    }

    /** Any observer ever enrolled is served, at any later revision, a path to the current root. */
    method TreePath(key: Key, commitment: Felt, asserted: bool) returns (r: Result<Path, Error>)
      requires Valid()
      ensures r.Ok? <==> asserted && FindKey(rows, key) != [] && FindKey(rows, key)[0].commitment == commitment
      ensures r == Err(InvalidAttestation) <==> !asserted
      ensures r == Err(UnknownObserver) <==>
        (asserted && forall i :: 0 <= i < |rows| ==> rows[i].key != key || rows[i].commitment != commitment)
      ensures r.Ok? ==>
        |r.value.siblings| == |r.value.directions| && r.value.root == Root() &&
        r.value.revision == |rows| && r.value.leaf == h.node(commitment, OBSERVER_CLASS) &&
        Fold(h, r.value.leaf, r.value.siblings, r.value.directions) == r.value.root
    {
      if !asserted { return Err(InvalidAttestation); }
      var found := FindKey(rows, key);
      if found == [] || found[0].commitment != commitment { return Err(UnknownObserver); }
      var path := PathOf(found[0]);
      return Ok(path);
    }

    /** The consistency throw (Disagree) cannot happen, and a batch is the newest root together with the
        time since which some root is waiting. */
    method PublicationBatch(afterRevision: int) returns (batch: Batch)
      requires Valid()
      ensures batch != Disagree
      ensures batch.Snapshot? <==> |rows| > afterRevision && rows != []
      ensures batch.Snapshot? ==> batch.row == RootRow(|rows|, Root(), |rows|, roots[|rows|].createdAt)
      ensures batch.Snapshot? ==> IsOldest(roots, afterRevision, batch.oldestPendingAt)
    {
      var row := roots[|roots| - 1];
      if row.revision <= afterRevision || row.leafCount == 0 { return Nothing; }
      if |rows| != row.leafCount { return Disagree; }
      assert LeavesOf(rows)[..|rows|] == LeavesOf(rows);
      var oldest := row.createdAt;
      for i := 0 to |roots|
        invariant oldest == row.createdAt || Pending(roots[..i], afterRevision, oldest)
        invariant forall k :: 0 <= k < i && roots[k].revision > afterRevision ==> oldest <= roots[k].createdAt
      {
        assert roots[..i + 1] == roots[..i] + [roots[i]];
        if roots[i].revision > afterRevision && roots[i].createdAt < oldest {
          oldest := roots[i].createdAt;
          assert roots[..i + 1][i] == roots[i];
        }
      }
      assert roots[..|roots|] == roots && roots[|roots| - 1] == row;
      return Snapshot(row, oldest);
    }
  }

  ghost predicate Pending(roots: seq<RootRow>, afterRevision: int, at: int) {
    exists root :: root in roots && root.revision > afterRevision && root.createdAt == at
  }

  /** The earliest time among the roots after a revision. */
  ghost predicate IsOldest(roots: seq<RootRow>, afterRevision: int, at: int) {
    Pending(roots, afterRevision, at) &&
    forall i :: 0 <= i < |roots| && roots[i].revision > afterRevision ==> at <= roots[i].createdAt
  }

  /** The level-by-level recomputation over the dense leaf list; with Service.Valid it equals every
      root the service stores. */
  method DenseRoot(h: Hasher<Felt>, leaves: seq<Felt>, depth: nat) returns (root: Felt)
    requires 0 < |leaves| <= Pow2(depth)
    ensures root == NodeAt(h, leaves, depth, 0)
  {
    var nodes, zero := leaves, h.empty;
    for level := 0 to depth
      invariant zero == EmptyAt(h, level) && |nodes| == Shift(|leaves| - 1, level) + 1
      invariant forall i :: 0 <= i < |nodes| ==> nodes[i] == NodeAt(h, leaves, level, i)
    {
      var next: seq<Felt>, i := [], 0;
      while i < |nodes|
        invariant i % 2 == 0 && i <= |nodes| + 1 && |next| == i / 2
        invariant forall k :: 0 <= k < |next| ==> next[k] == NodeAt(h, leaves, level + 1, k)
      {
        EmptyBeyond(h, leaves, |leaves| - 1, level, |nodes|);
        assert 2 * (i / 2) == i;
        assert NodeAt(h, leaves, level + 1, i / 2)
            == h.node(NodeAt(h, leaves, level, i), NodeAt(h, leaves, level, i + 1));
        next := next + [h.node(nodes[i], if i + 1 < |nodes| then nodes[i + 1] else zero)];
        i := i + 2;
      }
      nodes, zero := next, h.node(zero, zero);
    }
    ShiftZero(|leaves| - 1, depth);
    root := nodes[0];
  }
}
