/** The confidence engine's observer grouping: union-find with path compression over pseudonyms,
    joined when their slot sets overlap in more than 80 % of the larger one. */
module UnionFind {
  const BPS: nat := 10_000
  const THRESHOLD: nat := 8_000

  // ---------- connectivity, independent of the data structure ----------

  ghost predicate Adjacent<P>(edges: set<(P, P)>, x: P, y: P) {
    (x, y) in edges || (y, x) in edges
  }

  ghost predicate IsPath<P>(edges: set<(P, P)>, path: seq<P>, x: P, y: P) {
    && path != [] && path[0] == x && path[|path| - 1] == y
    && (forall k :: 0 <= k < |path| - 1 ==> Adjacent(edges, path[k], path[k + 1]))
  }

  ghost predicate Connected<P(!new)>(edges: set<(P, P)>, x: P, y: P) {
    exists path :: IsPath(edges, path, x, y)
  }

  lemma Reflexive<P(!new)>(edges: set<(P, P)>, x: P)
    ensures Connected(edges, x, x)
  {
    assert IsPath(edges, [x], x, x);
  }

  lemma EdgeConnects<P(!new)>(edges: set<(P, P)>, x: P, y: P)
    requires Adjacent(edges, x, y)
    ensures Connected(edges, x, y)
  {
    assert IsPath(edges, [x, y], x, y);
  }

  lemma Transitive<P(!new)>(edges: set<(P, P)>, x: P, y: P, z: P)
    requires Connected(edges, x, y) && Connected(edges, y, z)
    ensures Connected(edges, x, z)
  {
    var p :| IsPath(edges, p, x, y);
    var q :| IsPath(edges, q, y, z);
    assert IsPath(edges, p + q[1..], x, z);
  }

  lemma Symmetric<P(!new)>(edges: set<(P, P)>, x: P, y: P)
    requires Connected(edges, x, y)
    ensures Connected(edges, y, x)
  {
    var p :| IsPath(edges, p, x, y);
    var back := seq(|p|, i requires 0 <= i < |p| => p[|p| - 1 - i]);
    forall k | 0 <= k < |back| - 1 ensures Adjacent(edges, back[k], back[k + 1]) {
      assert Adjacent(edges, p[|p| - 2 - k], p[|p| - 2 - k + 1]);
    }
    assert IsPath(edges, back, y, x);
  }

  lemma Weaken<P(!new)>(edges: set<(P, P)>, more: set<(P, P)>, x: P, y: P)
    requires edges <= more && Connected(edges, x, y)
    ensures Connected(more, x, y)
  {
    var p :| IsPath(edges, p, x, y);
    assert IsPath(more, p, x, y);
  }

  // ---------- representatives ----------

  /** rep names the connected components of edges. */
  ghost predicate Names<P(!new)>(rep: map<P, P>, edges: set<(P, P)>) {
    && (forall x, y :: x in rep && y in rep ==> (rep[x] == rep[y] <==> Connected(edges, x, y)))
    && (forall e :: e in edges ==> e.0 in rep && e.1 in rep)
  }

  ghost function Joined<P>(rep: map<P, P>, a: P, b: P): map<P, P>
    requires a in rep && b in rep
  {
    map x | x in rep :: if rep[x] == rep[b] then rep[a] else rep[x]
  }

  lemma {:induction false} PathStaysInClass<P(!new)>(rep: map<P, P>, edges: set<(P, P)>, path: seq<P>, x: P, y: P)
    requires forall e :: e in edges ==> e.0 in rep && e.1 in rep && rep[e.0] == rep[e.1]
    requires IsPath(edges, path, x, y) && x in rep
    ensures y in rep && rep[x] == rep[y]
    decreases |path|
  {
    if |path| > 1 {
      assert Adjacent(edges, path[0], path[0 + 1]);
      assert path[1] in rep && rep[path[1]] == rep[x];
      assert IsPath(edges, path[1..], path[1], y) by {
        forall k | 0 <= k < |path[1..]| - 1 ensures Adjacent(edges, path[1..][k], path[1..][k + 1]) {
          assert Adjacent(edges, path[k + 1], path[k + 1 + 1]);
        }
      }
      PathStaysInClass(rep, edges, path[1..], path[1], y);
    }
  }

  lemma CrossEdge<P(!new)>(rep: map<P, P>, edges: set<(P, P)>, a: P, b: P, x: P, y: P)
    requires Names(rep, edges) && a in rep && b in rep && x in rep && y in rep
    requires rep[x] == rep[a] && rep[y] == rep[b]
    ensures Connected(edges + {(a, b)}, x, y) && Connected(edges + {(a, b)}, y, x)
  {
    var more := edges + {(a, b)};
    Weaken(edges, more, x, a);
    Weaken(edges, more, b, y);
    EdgeConnects(more, a, b);
    Transitive(more, x, a, b);
    Transitive(more, x, b, y);
    Symmetric(more, x, y);
  }

  lemma JoinNames<P(!new)>(rep: map<P, P>, edges: set<(P, P)>, a: P, b: P)
    requires Names(rep, edges) && a in rep && b in rep
    ensures Names(Joined(rep, a, b), edges + {(a, b)})
  {
    var more, rep' := edges + {(a, b)}, Joined(rep, a, b);
    forall e | e in more ensures e.0 in rep' && e.1 in rep' && rep'[e.0] == rep'[e.1] {
      if e in edges { EdgeConnects(edges, e.0, e.1); }
    }
    forall x, y | x in rep' && y in rep'
      ensures rep'[x] == rep'[y] <==> Connected(more, x, y)
    {
      if rep'[x] == rep'[y] {
        if rep[x] == rep[y] { Weaken(edges, more, x, y); }
        else if rep[y] == rep[b] { CrossEdge(rep, edges, a, b, x, y); }
        else { CrossEdge(rep, edges, a, b, y, x); }
      }
      if Connected(more, x, y) {
        var p :| IsPath(more, p, x, y);
        PathStaysInClass(rep', more, p, x, y);
      }
    }
  }

  // ---------- the forest ----------

  /** What one pseudonym's parent, representative and rank must satisfy; the rank grows along parent
      links, so there is no cycle. */
  ghost predicate Node<P>(parent: map<P, P>, rep: map<P, P>, rank: map<P, nat>, top: nat, p: P)
    requires rep.Keys == parent.Keys && rank.Keys == parent.Keys && p in parent
  {
    && parent[p] in parent && rep[p] in parent && rank[p] <= top
    && rep[parent[p]] == rep[p] && parent[rep[p]] == rep[p]
    && (if parent[p] == p then rep[p] == p else rank[p] < rank[parent[p]])
  }

  ghost predicate WellFormed<P>(parent: map<P, P>, rep: map<P, P>, rank: map<P, nat>, top: nat) {
    && rep.Keys == parent.Keys && rank.Keys == parent.Keys
    && (forall p {:trigger Node(parent, rep, rank, top, p)} :: p in parent ==> Node(parent, rep, rank, top, p))
  }

  lemma CompressKeeps<P>(parent: map<P, P>, rep: map<P, P>, rank: map<P, nat>, top: nat, p: P)
    requires WellFormed(parent, rep, rank, top) && p in parent && rep[p] in parent && rank[p] < rank[rep[p]]
    ensures WellFormed(parent[p := rep[p]], rep, rank, top)
  {
    var parent' := parent[p := rep[p]];
    assert Node(parent, rep, rank, top, p) && Node(parent, rep, rank, top, rep[p]);
    forall q | q in parent' ensures Node(parent', rep, rank, top, q) {
      assert Node(parent, rep, rank, top, q) && Node(parent, rep, rank, top, rep[q]);
    }
  }

  lemma LinkKeeps<P>(parent: map<P, P>, rep: map<P, P>, rank: map<P, nat>, top: nat, a: P, b: P,
                     rank': map<P, nat>, top': nat)
    requires WellFormed(parent, rep, rank, top) && a in parent && b in parent && rep[a] != rep[b]
    requires rep[a] in parent && rep[b] in parent
    requires rank' == rank[rep[a] := if rank[rep[a]] <= rank[rep[b]] then rank[rep[b]] + 1 else rank[rep[a]]]
    requires top' >= top && top' >= rank'[rep[a]]
    ensures WellFormed(parent[rep[b] := rep[a]], Joined(rep, a, b), rank', top')
  {
    var parent', rep' := parent[rep[b] := rep[a]], Joined(rep, a, b);
    assert Node(parent, rep, rank, top, a) && Node(parent, rep, rank, top, rep[a]);
    assert Node(parent, rep, rank, top, b) && Node(parent, rep, rank, top, rep[b]);
    forall p | p in parent' ensures Node(parent', rep', rank', top', p) {
      assert Node(parent, rep, rank, top, p);
      assert Node(parent, rep, rank, top, rep[p]) && Node(parent, rep, rank, top, parent[p]);
    }
  }

  lemma JoinSame<P>(rep: map<P, P>, a: P, b: P)
    requires a in rep && b in rep && rep[a] == rep[b]
    ensures Joined(rep, a, b) == rep
  {
  }

  class Forest<P(==, !new)> {
    var parent: map<P, P>
    ghost var rep: map<P, P>
    ghost var rank: map<P, nat>
    ghost var top: nat

    ghost predicate Valid() reads this { WellFormed(parent, rep, rank, top) }

    constructor (pseudonyms: seq<P>)
      ensures Valid() && parent == map p | p in pseudonyms :: p
      ensures rep == map p | p in pseudonyms :: p
    {
      parent := map p | p in pseudonyms :: p;
      rep := map p | p in pseudonyms :: p;
      rank := map p | p in pseudonyms :: 0;
      top := 0;
      new;
      forall p | p in parent ensures Node(parent, rep, rank, top, p) {}
    }

    method Find(p: P) returns (root: P)
      requires Valid() && p in parent
      modifies this`parent
      ensures Valid() && parent.Keys == old(parent.Keys)
      ensures root in parent && root == rep[p] && rank[p] <= rank[root]
      decreases top - rank[p]
    {
      var up := parent[p];
      assert Node(parent, rep, rank, top, p);
      if up == p { return p; }
      root := Find(up);
      assert Node(parent, rep, rank, top, p);
      CompressKeeps(parent, rep, rank, top, p);
      parent := parent[p := root];
    }

    method Union(a: P, b: P)
      requires Valid() && a in parent && b in parent
      modifies this
      ensures Valid() && parent.Keys == old(parent.Keys)
      ensures rep == Joined(old(rep), a, b)
    {
      var rootB := Find(b);
      var rootA := Find(a);
      assert Node(parent, rep, rank, top, a) && Node(parent, rep, rank, top, b);
      assert Node(parent, rep, rank, top, rootB);
      if rootA == rootB {
        JoinSame(rep, a, b);
        assert parent[rootB := rootA] == parent;
        parent := parent[rootB := rootA];
      } else {
        ghost var rank' := rank[rootA := if rank[rootA] <= rank[rootB] then rank[rootB] + 1 else rank[rootA]];
        ghost var top' := if top < rank'[rootA] then rank'[rootA] else top;
        LinkKeeps(parent, rep, rank, top, a, b, rank', top');
        parent := parent[rootB := rootA];
        rep, rank, top := Joined(rep, a, b), rank', top';
      }
    }
  }

  // ---------- grouping ----------

  function Larger(a: nat, b: nat): nat { if a < b then b else a }

  predicate Similar<S>(a: set<S>, b: set<S>) {
    var denominator := Larger(|a|, |b|);
    denominator != 0 && |a * b| * BPS > denominator * THRESHOLD
  }

  /** More than four fifths of either set is common. */
  lemma SimilarIsFourFifths<S>(a: set<S>, b: set<S>)
    ensures Similar(a, b) <==> 5 * |a * b| > 4 * |a| && 5 * |a * b| > 4 * |b|
  {
    assert a == {} || b == {} ==> a * b == {};
  }

  /** The joined class keeps the root of the first. */
  lemma JoinKeepsFirst<P>(rep: map<P, P>, a: P, b: P)
    requires a in rep && b in rep
    ensures forall x :: x in rep ==>
      Joined(rep, a, b)[x] == if rep[x] in {rep[a], rep[b]} then rep[a] else rep[x]
  {
  }

  /** The pairs examined before position (i, j) whose overlap exceeds the threshold. */
  ghost function PairsBefore<P(!new), S>(ps: seq<P>, slots: map<P, set<S>>, i: nat, j: nat): set<(P, P)>
    requires forall p :: p in ps ==> p in slots
  {
    set x, y | 0 <= x < y < |ps| && (x < i || (x == i && y < j)) && Similar(slots[ps[x]], slots[ps[y]])
      :: (ps[x], ps[y])
  }

  ghost function SimilarPairs<P(!new), S>(ps: seq<P>, slots: map<P, set<S>>): set<(P, P)>
    requires forall p :: p in ps ==> p in slots
  {
    set x, y | 0 <= x < y < |ps| && Similar(slots[ps[x]], slots[ps[y]]) :: (ps[x], ps[y])
  }

  /** The representatives once the pairs before position (i, j) have been examined. */
  ghost function RepsBefore<P(!new), S>(ps: seq<P>, slots: map<P, set<S>>, i: nat, j: nat): (rep: map<P, P>)
    requires i <= |ps| && i < j && (j == i + 1 || j <= |ps|) && forall p :: p in ps ==> p in slots
    ensures rep.Keys == set p | p in ps
    decreases i, j
  {
    if j > i + 1 then
      var rep := RepsBefore(ps, slots, i, j - 1);
      if Similar(slots[ps[i]], slots[ps[j - 1]]) then Joined(rep, ps[i], ps[j - 1]) else rep
    else if i > 0 then RepsBefore(ps, slots, i - 1, |ps|)
    else map p | p in ps :: p
  }

  ghost function Reps<P(!new), S>(ps: seq<P>, slots: map<P, set<S>>): (rep: map<P, P>)
    requires forall p :: p in ps ==> p in slots
    ensures rep.Keys == set p | p in ps
  {
    RepsBefore(ps, slots, |ps|, |ps| + 1)
  }

  lemma NextPair<P(!new), S>(ps: seq<P>, slots: map<P, set<S>>, i: nat, j: nat)
    requires i < j < |ps| && forall p :: p in ps ==> p in slots
    ensures PairsBefore(ps, slots, i, j + 1) == PairsBefore(ps, slots, i, j) +
      if Similar(slots[ps[i]], slots[ps[j]]) then {(ps[i], ps[j])} else {}
  {
    var e := (ps[i], ps[j]);
    forall d | d in PairsBefore(ps, slots, i, j + 1)
      ensures d in PairsBefore(ps, slots, i, j) || (d == e && Similar(slots[ps[i]], slots[ps[j]]))
    {
      var x, y :| 0 <= x < y < |ps| && (x < i || (x == i && y < j + 1)) &&
        Similar(slots[ps[x]], slots[ps[y]]) && d == (ps[x], ps[y]);
      if x == i && y == j {} else { assert x < i || (x == i && y < j); }
    }
    forall d | d in PairsBefore(ps, slots, i, j) ensures d in PairsBefore(ps, slots, i, j + 1) {
      var x, y :| 0 <= x < y < |ps| && (x < i || (x == i && y < j)) &&
        Similar(slots[ps[x]], slots[ps[y]]) && d == (ps[x], ps[y]);
      assert x < i || (x == i && y < j + 1);
    }
  }

  lemma RowDone<P(!new), S>(ps: seq<P>, slots: map<P, set<S>>, i: nat)
    requires i < |ps| && forall p :: p in ps ==> p in slots
    ensures PairsBefore(ps, slots, i, |ps|) == PairsBefore(ps, slots, i + 1, i + 2)
  {
  }

  lemma NoPairs<P(!new), S>(ps: seq<P>, slots: map<P, set<S>>)
    requires forall p :: p in ps ==> p in slots
    ensures PairsBefore(ps, slots, 0, 1) == {}
  {
  }

  lemma AllPairs<P(!new), S>(ps: seq<P>, slots: map<P, set<S>>)
    requires forall p :: p in ps ==> p in slots
    ensures PairsBefore(ps, slots, |ps|, |ps| + 1) == SimilarPairs(ps, slots)
  {
  }

  lemma SingletonNames<P(!new)>(ps: seq<P>)
    ensures Names(map p | p in ps :: p, {})
  {
    var rep := map p | p in ps :: p;
    forall x, y | x in rep && y in rep ensures rep[x] == rep[y] <==> Connected({}, x, y) {
      Reflexive({}, x);
      if Connected({}, x, y) {
        var p: seq<P> :| IsPath({}, p, x, y);
        PathStaysInClass(rep, {}, p, x, y);
      }
    }
  }

  ghost predicate Idempotent<P>(rep: map<P, P>) {
    forall p :: p in rep ==> rep[p] in rep && rep[rep[p]] == rep[p]
  }

  lemma PairNames<P(!new), S>(rep: map<P, P>, ps: seq<P>, slots: map<P, set<S>>, i: nat, j: nat)
    requires i < j < |ps| && (forall p :: p in ps ==> p in slots && p in rep)
    requires Names(rep, PairsBefore(ps, slots, i, j))
    ensures Names(if Similar(slots[ps[i]], slots[ps[j]]) then Joined(rep, ps[i], ps[j]) else rep,
                  PairsBefore(ps, slots, i, j + 1))
  {
    NextPair(ps, slots, i, j);
    if Similar(slots[ps[i]], slots[ps[j]]) {
      JoinNames(rep, PairsBefore(ps, slots, i, j), ps[i], ps[j]);
    } else {
      assert PairsBefore(ps, slots, i, j) + {} == PairsBefore(ps, slots, i, j);
    }
  }

  ghost predicate Named<P(!new), S>(ps: seq<P>, slots: map<P, set<S>>, i: nat, j: nat)
    requires i <= |ps| && i < j && (j == i + 1 || j <= |ps|) && (forall p :: p in ps ==> p in slots)
  {
    Names(RepsBefore(ps, slots, i, j), PairsBefore(ps, slots, i, j))
  }

  lemma NextNamed<P(!new), S>(ps: seq<P>, slots: map<P, set<S>>, i: nat, j: nat)
    requires i < j < |ps| && (forall p :: p in ps ==> p in slots) && Named(ps, slots, i, j)
    ensures Named(ps, slots, i, j + 1)
  {
    PairNames(RepsBefore(ps, slots, i, j), ps, slots, i, j);
  }

  lemma RowNamed<P(!new), S>(ps: seq<P>, slots: map<P, set<S>>, i: nat)
    requires i < |ps| && (forall p :: p in ps ==> p in slots) && Named(ps, slots, i, |ps|)
    ensures Named(ps, slots, i + 1, i + 2)
  {
    RowDone(ps, slots, i);
  }

  lemma FirstNamed<P(!new), S>(ps: seq<P>, slots: map<P, set<S>>)
    requires forall p :: p in ps ==> p in slots
    ensures Named(ps, slots, 0, 1)
  {
    SingletonNames(ps);
    NoPairs(ps, slots);
  }

  lemma RowOfPairsNamed<P(!new), S>(ps: seq<P>, slots: map<P, set<S>>, i: nat)
    requires i < |ps| && (forall p :: p in ps ==> p in slots) && Named(ps, slots, i, i + 1)
    ensures Named(ps, slots, i + 1, i + 2)
  {
    for j := i + 1 to |ps|
      invariant Named(ps, slots, i, j)
    {
      NextNamed(ps, slots, i, j);
    }
    RowNamed(ps, slots, i);
  }

  lemma AllNamed<P(!new), S>(ps: seq<P>, slots: map<P, set<S>>)
    requires forall p :: p in ps ==> p in slots
    ensures Named(ps, slots, |ps|, |ps| + 1)
  {
    FirstNamed(ps, slots);
    for i := 0 to |ps|
      invariant Named(ps, slots, i, i + 1)
    {
      RowOfPairsNamed(ps, slots, i);
    }
  }

  lemma {:induction false} RepsIdempotent<P(!new), S>(ps: seq<P>, slots: map<P, set<S>>, i: nat, j: nat)
    requires i <= |ps| && i < j && (j == i + 1 || j <= |ps|) && (forall p :: p in ps ==> p in slots)
    ensures Idempotent(RepsBefore(ps, slots, i, j))
    decreases i, j
  {
    if j > i + 1 {
      RepsIdempotent(ps, slots, i, j - 1);
      var rep := RepsBefore(ps, slots, i, j - 1);
      JoinIdempotent(rep, ps[i], ps[j - 1]);
    } else if i > 0 {
      RepsIdempotent(ps, slots, i - 1, |ps|);
    }
  }

  lemma JoinIdempotent<P>(rep: map<P, P>, a: P, b: P)
    requires Idempotent(rep) && a in rep && b in rep
    ensures Idempotent(Joined(rep, a, b))
  {
  }

  /** The representatives name the components of the similarity graph. */
  lemma RepsNameComponents<P(!new), S>(ps: seq<P>, slots: map<P, set<S>>)
    requires forall p :: p in ps ==> p in slots
    ensures Names(Reps(ps, slots), SimilarPairs(ps, slots)) && Idempotent(Reps(ps, slots))
  {
    AllNamed(ps, slots);
    RepsIdempotent(ps, slots, |ps|, |ps| + 1);
    AllPairs(ps, slots);
  }

  /** One turn of the outer loop. */
  method Row<P(==, !new), S(==)>(forest: Forest<P>, ps: seq<P>, slots: map<P, set<S>>, i: nat)
    requires i < |ps| && (forall p :: p in ps ==> p in slots)
    requires forest.Valid() && forest.rep == RepsBefore(ps, slots, i, i + 1)
    modifies forest
    ensures forest.Valid() && forest.rep == RepsBefore(ps, slots, i + 1, i + 2)
  {
    for j := i + 1 to |ps|
      invariant forest.Valid() && forest.rep == RepsBefore(ps, slots, i, j)
    {
      if Similar(slots[ps[i]], slots[ps[j]]) { forest.Union(ps[i], ps[j]); }
    }
  }

  /** After the double loop two pseudonyms have the same root exactly when a chain of pairs, each
      overlapping in more than 80 % of its larger slot set, joins them. */
  method Group<P(==, !new), S(==)>(ps: seq<P>, slots: map<P, set<S>>) returns (forest: Forest<P>)
    requires forall p :: p in ps ==> p in slots
    ensures fresh(forest) && forest.Valid()
    ensures Names(forest.rep, SimilarPairs(ps, slots)) && forest.rep == Reps(ps, slots)
  {
    forest := new Forest(ps);
    for i := 0 to |ps|
      invariant forest.Valid() && fresh(forest) && forest.rep == RepsBefore(ps, slots, i, i + 1)
    {
      Row(forest, ps, slots, i);
    }
    RepsNameComponents(ps, slots);
  }

  /** A nonempty increasing bucket of record positions below k, all of whose pseudonyms have root g. */
  ghost predicate Bucket<P>(rep: map<P, P>, targets: seq<P>, k: nat, g: P, bucket: seq<nat>)
    requires k <= |targets| && forall p :: p in targets ==> p in rep
  {
    && bucket != []
    && (forall x :: 0 <= x < |bucket| ==> bucket[x] < k && rep[targets[bucket[x]]] == g)
    && (forall x, y :: 0 <= x < y < |bucket| ==> bucket[x] < bucket[y])
  }

  /** groups collects the first k target records under the root of their pseudonym. */
  ghost predicate Collected<P>(rep: map<P, P>, targets: seq<P>, k: nat, groups: map<P, seq<nat>>)
    requires k <= |targets| && forall p :: p in targets ==> p in rep
  {
    && (forall g :: g in groups ==> Bucket(rep, targets, k, g, groups[g]))
    && (forall i: nat :: i < k ==> rep[targets[i]] in groups && i in groups[rep[targets[i]]])
  }

  lemma BucketGrows<P>(rep: map<P, P>, targets: seq<P>, k: nat, g: P, bucket: seq<nat>)
    requires k < |targets| && (forall p :: p in targets ==> p in rep) && rep[targets[k]] == g
    requires bucket == [] || Bucket(rep, targets, k, g, bucket)
    ensures Bucket(rep, targets, k + 1, g, bucket + [k])
  {
  }

  lemma CollectNext<P>(rep: map<P, P>, targets: seq<P>, k: nat, groups: map<P, seq<nat>>)
    requires k < |targets| && (forall p :: p in targets ==> p in rep) && Collected(rep, targets, k, groups)
    ensures var g := rep[targets[k]];
      Collected(rep, targets, k + 1, groups[g := (if g in groups then groups[g] else []) + [k]])
  {
    var g0 := rep[targets[k]];
    var before: seq<nat> := if g0 in groups then groups[g0] else [];
    var groups' := groups[g0 := before + [k]];
    assert (before + [k])[|before|] == k;
    forall g | g in groups' ensures Bucket(rep, targets, k + 1, g, groups'[g]) {
      if g in groups { assert Bucket(rep, targets, k, g, groups[g]); }
      if g == g0 { BucketGrows(rep, targets, k, g0, before); }
    }
    forall i: nat | i < k + 1 ensures rep[targets[i]] in groups' && i in groups'[rep[targets[i]]] {
      if i < k {
        assert i in groups[rep[targets[i]]];
        if rep[targets[i]] == g0 { assert i in before; }
      }
    }
  }

  /** The records of the target epoch, collected under the root of their pseudonym. */
  method GroupTargets<P(==, !new)>(forest: Forest<P>, targets: seq<P>) returns (groups: map<P, seq<nat>>)
    requires forest.Valid() && forall p :: p in targets ==> p in forest.rep
    modifies forest`parent
    ensures forest.Valid() && forest.rep == old(forest.rep)
    ensures Collected(forest.rep, targets, |targets|, groups)
  {
    groups := map[];
    for k := 0 to |targets|
      invariant forest.Valid() && Collected(forest.rep, targets, k, groups)
    {
      CollectNext(forest.rep, targets, k, groups);
      var g := forest.Find(targets[k]);
      groups := groups[g := (if g in groups then groups[g] else []) + [k]];
    }
  }

  ghost function Component<P(!new)>(rep: map<P, P>, edges: set<(P, P)>, p: P): set<P> {
    set q | q in rep && Connected(edges, p, q)
  }

  ghost function Components<P(!new)>(rep: map<P, P>, edges: set<(P, P)>, ps: set<P>): set<set<P>> {
    set p | p in ps :: Component(rep, edges, p)
  }

  ghost function Roots<P(!new)>(rep: map<P, P>, ps: set<P>): set<P>
    requires ps <= rep.Keys
  {
    set p | p in ps :: rep[p]
  }

  lemma {:induction false} SameSize<A, B>(a: set<A>, f: A -> B, b: set<B>)
    requires b == set x | x in a :: f(x)
    requires forall x, y :: x in a && y in a && f(x) == f(y) ==> x == y
    ensures |a| == |b|
    decreases |a|
  {
    if a != {} {
      var x :| x in a;
      var b' := set y | y in a - {x} :: f(y);
      assert b == b' + {f(x)};
      SameSize(a - {x}, f, b');
    }
  }

  /** The observer group count is the number of connected components meeting the target epoch. */
  lemma GroupCount<P(!new)>(rep: map<P, P>, edges: set<(P, P)>, targets: seq<P>, groups: map<P, seq<nat>>)
    requires Names(rep, edges) && (forall p :: p in targets ==> p in rep)
    requires Idempotent(rep)
    requires Collected(rep, targets, |targets|, groups)
    ensures |groups| == |Components(rep, edges, set p | p in targets)|
  {
    var ts := set p | p in targets;
    assert groups.Keys == Roots(rep, ts) by {
      forall g | g in groups ensures g in Roots(rep, ts) {
        assert Bucket(rep, targets, |targets|, g, groups[g]);
        var i := groups[g][0];
        assert targets[i] in ts;
      }
      forall g | g in Roots(rep, ts) ensures g in groups {
        var p :| p in ts && rep[p] == g;
        var i :| 0 <= i < |targets| && targets[i] == p;
      }
    }
    RootsAreComponents(rep, edges, ts);
  }

  lemma RootsAreComponents<P(!new)>(rep: map<P, P>, edges: set<(P, P)>, targets: set<P>)
    requires Names(rep, edges) && targets <= rep.Keys
    requires Idempotent(rep)
    ensures |Roots(rep, targets)| == |Components(rep, edges, targets)|
  {
    var roots, components := Roots(rep, targets), Components(rep, edges, targets);
    var f := r => Component(rep, edges, r);
    forall p | p in targets ensures Component(rep, edges, p) == f(rep[p]) {
      assert forall q :: q in rep ==> (Connected(edges, p, q) <==> rep[p] == rep[q]);
      assert forall q :: q in rep ==> (Connected(edges, rep[p], q) <==> rep[p] == rep[q]);
    }
    assert components == set r | r in roots :: f(r) by {
      forall c | c in components ensures c in set r | r in roots :: f(r) {
        var p :| p in targets && c == Component(rep, edges, p);
        assert rep[p] in roots && f(rep[p]) == c;
      }
      forall c | c in set r | r in roots :: f(r) ensures c in components {
        var r :| r in roots && c == f(r);
        var p :| p in targets && rep[p] == r;
        assert c == Component(rep, edges, p);
      }
    }
    forall x, y | x in roots && y in roots && f(x) == f(y) ensures x == y {
      assert x in f(x) by { assert rep[x] == rep[x]; }
    }
    SameSize(roots, f, components);
  }
}
