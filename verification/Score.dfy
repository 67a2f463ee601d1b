/** The confidence report of one device epoch: the order of its records, the six facets, the weighted
    score and the status. Hashes, nullifiers, pseudonyms and places are ranks of fixed-length strings. */
module Score {
  import opened Wrappers
  import opened Intake
  import ObservationTree
  import UnionFind
  import Entropy
  import Powers

  const BPS: int := 10_000
  const WINDOW_MS: nat := 2_592_000_000
  const MAX_PSEUDONYMS: nat := 512
  const GPS_LIMIT: nat := 1_000
  const PRESENCE: int := 2_500
  const HOUR_MS: nat := 3_600_000

  /** The digests of the observation tree over transcript hashes. */
  type Tree = ObservationTree.Digests<nat, nat>

  datatype Status = Verified | Low

  datatype Facets = Facets(hardware: int, freshness: int, diversity: int, spatial: int, behavior: int, service: int)

  /** inputs is what the inputs hash commits to. */
  datatype Report = Report(inputs: seq<Input>, facets: Facets, score: int, raw: nat, groups: nat, history: nat,
                           located: nat, riskAvailable: bool, status: Status)

  // ---------- order ----------

  function Insert(x: Input, xs: seq<Input>): seq<Input> {
    if xs == [] || x.hash <= xs[0].hash then [x] + xs else [xs[0]] + Insert(x, xs[1..])
  }

  function Sorted(xs: seq<Input>): seq<Input> {
    if xs == [] then [] else Insert(xs[0], Sorted(xs[1..]))
  }

  ghost predicate Ascending(xs: seq<Input>) {
    forall i, j :: 0 <= i < j < |xs| ==> xs[i].hash <= xs[j].hash
  }

  lemma {:induction false} InsertKeeps(x: Input, xs: seq<Input>)
    ensures multiset(Insert(x, xs)) == multiset{x} + multiset(xs)
  {
    if xs != [] && x.hash > xs[0].hash {
      InsertKeeps(x, xs[1..]);
      assert xs == [xs[0]] + xs[1..];
    }
  }

  lemma {:induction false} InsertAscending(x: Input, xs: seq<Input>)
    requires Ascending(xs)
    ensures Ascending(Insert(x, xs))
  {
    if xs != [] && x.hash > xs[0].hash {
      InsertAscending(x, xs[1..]);
      InsertKeeps(x, xs[1..]);
      var rest := Insert(x, xs[1..]);
      forall k | 0 <= k < |rest| ensures xs[0].hash <= rest[k].hash {
        assert rest[k] in multiset(rest);
        assert rest[k] == x || rest[k] in xs[1..];
      }
    }
  }

  lemma {:induction false} SortedSorts(xs: seq<Input>)
    ensures multiset(Sorted(xs)) == multiset(xs) && Ascending(Sorted(xs))
  {
    if xs != [] {
      SortedSorts(xs[1..]);
      InsertKeeps(xs[0], Sorted(xs[1..]));
      InsertAscending(xs[0], Sorted(xs[1..]));
      assert xs == [xs[0]] + xs[1..];
    }
  }

  /** No two inputs share a hash. */
  ghost predicate HashesTell(m: multiset<Input>) {
    forall x, y :: x in m && y in m && x.hash == y.hash ==> x == y
  }

  lemma FirstIsLeast(a: seq<Input>, b: seq<Input>)
    requires a != [] && b != [] && Ascending(b) && multiset(a) == multiset(b)
    ensures b[0].hash <= a[0].hash && a[0] in multiset(b)
  {
    assert a[0] in multiset(b);
    assert a[0] in b;
  }

  lemma SameFirst(a: seq<Input>, b: seq<Input>)
    requires Ascending(a) && Ascending(b) && multiset(a) == multiset(b) && HashesTell(multiset(a)) && a != [] && b != []
    ensures a[0] == b[0]
  {
    FirstIsLeast(a, b);
    FirstIsLeast(b, a);
  }

  lemma TailAscending(a: seq<Input>)
    requires Ascending(a) && a != []
    ensures Ascending(a[1..])
  {
  }

  lemma TailTells(a: seq<Input>)
    requires HashesTell(multiset(a)) && a != []
    ensures HashesTell(multiset(a[1..]))
  {
    assert a == [a[0]] + a[1..];
    forall x | x in multiset(a[1..]) ensures x in multiset(a) {}
  }

  /** What is left after equal first elements. */
  lemma Tails(a: seq<Input>, b: seq<Input>)
    requires multiset(a) == multiset(b) && a != [] && b != [] && a[0] == b[0]
    ensures multiset(a[1..]) == multiset(b[1..]) && (a[1..] == b[1..] ==> a == b)
  {
    assert a == [a[0]] + a[1..] && b == [b[0]] + b[1..];
    assert multiset(a[1..]) == multiset(a) - multiset{a[0]};
    assert multiset(b[1..]) == multiset(b) - multiset{b[0]};
  }

  lemma SameLength(a: seq<Input>, b: seq<Input>)
    requires multiset(a) == multiset(b)
    ensures |a| == |b|
  {
    assert |multiset(a)| == |a| && |multiset(b)| == |b|;
  }

  lemma {:induction false} SortedUnique(a: seq<Input>, b: seq<Input>)
    requires Ascending(a) && Ascending(b) && multiset(a) == multiset(b) && HashesTell(multiset(a))
    ensures a == b
    decreases |a|
  {
    SameLength(a, b);
    if a != [] {
      SameFirst(a, b);
      Tails(a, b);
      TailAscending(a);
      TailAscending(b);
      TailTells(a);
      SortedUnique(a[1..], b[1..]);
    }
  }

  function InsertNat(x: nat, xs: seq<nat>): (ys: seq<nat>)
    ensures forall y :: y in ys <==> y == x || y in xs
  {
    if xs == [] || x < xs[0] then [x] + xs
    else if x == xs[0] then xs
    else
      assert xs == [xs[0]] + xs[1..];
      [xs[0]] + InsertNat(x, xs[1..])
  }

  /** The distinct members in increasing order. */
  function Distinct(xs: seq<nat>): (ys: seq<nat>)
    ensures forall y :: y in ys <==> y in xs
  {
    if xs == [] then []
    else
      assert xs == [xs[0]] + xs[1..];
      InsertNat(xs[0], Distinct(xs[1..]))
  }

  ghost predicate Increasing(xs: seq<nat>) { forall i, j :: 0 <= i < j < |xs| ==> xs[i] < xs[j] }

  lemma {:induction false} InsertIncreasing(x: nat, xs: seq<nat>)
    requires Increasing(xs)
    ensures Increasing(InsertNat(x, xs))
  {
    if xs != [] && x > xs[0] {
      InsertIncreasing(x, xs[1..]);
      var rest := InsertNat(x, xs[1..]);
      forall k | 0 <= k < |rest| ensures xs[0] < rest[k] { assert rest[k] == x || rest[k] in xs[1..]; }
    }
  }

  lemma {:induction false} DistinctIncreasing(xs: seq<nat>)
    ensures Increasing(Distinct(xs))
  {
    if xs != [] {
      DistinctIncreasing(xs[1..]);
      InsertIncreasing(xs[0], Distinct(xs[1..]));
    }
  }

  // ---------- selections of records ----------

  datatype Selection =
    | Target(device: nat, epoch: nat)
    | Recent(since: int)
    | Of(pseudonym: nat)
    | Class(reps: map<nat, nat>, root: nat)

  predicate Selected(sel: Selection, x: Input) {
    match sel
    case Target(device, epoch) => x.device == device && x.epoch == epoch
    case Recent(since) => x.time >= since
    case Of(pseudonym) => x.pseudonym == pseudonym
    case Class(reps, root) => x.pseudonym in reps && reps[x.pseudonym] == root
  }

  function Select(sel: Selection, xs: seq<Input>): (r: seq<Input>)
    ensures forall x :: x in r <==> x in xs && Selected(sel, x)
    ensures |r| <= |xs|
  {
    if xs == [] then []
    else
      assert xs == xs[..|xs| - 1] + [xs[|xs| - 1]];
      Select(sel, xs[..|xs| - 1]) + (if Selected(sel, xs[|xs| - 1]) then [xs[|xs| - 1]] else [])
  }

  function TargetOf(scope: Scope, records: seq<Input>): seq<Input> {
    Select(Target(scope.device, scope.epoch), records)
  }

  function WindowOf(scope: Scope, records: seq<Input>): seq<Input> {
    Select(Recent(scope.now - WINDOW_MS), records)
  }

  function Pseudonyms(xs: seq<Input>): (ps: seq<nat>)
    ensures |ps| == |xs| && forall i :: 0 <= i < |xs| ==> ps[i] == xs[i].pseudonym
  {
    seq(|xs|, i requires 0 <= i < |xs| => xs[i].pseudonym)
  }

  function AllPseudonyms(scope: Scope, records: seq<Input>): seq<nat> {
    Distinct(Pseudonyms(WindowOf(scope, records)) + Pseudonyms(TargetOf(scope, records)))
  }

  /** The epochs of devices each pseudonym observed within the window. */
  function Slots(ps: seq<nat>, window: seq<Input>): (slots: map<nat, set<(nat, nat)>>)
    ensures slots.Keys == set p | p in ps
  {
    map p | p in ps :: set x | x in Select(Of(p), window) :: (x.device, x.epoch)
  }

  predicate Complete(scope: Scope, target: seq<Input>) {
    target != [] && |target| == |scope.order| && |Distinct(scope.order)| == |target| &&
    forall x :: x in target ==> x.hash in scope.order
  }

  // ---------- facets ----------

  datatype Aspect = Hardware | Freshness | Accuracy | Service

  function ClassScore(c: Class): int { if c == 0 then 0 else if c == 3 then 8_000 else 10_000 }

  /** An admitted count is never negative. */
  function Reenrollments(x: Input): nat { if x.risk.Count? && x.risk.n >= 0 then x.risk.n else 0 }

  function ValueOf(scope: Scope, aspect: Aspect, x: Input): int
    requires scope.epochSeconds >= 1
  {
    match aspect
    case Hardware => ClassScore(x.observerClass) / (1 + Reenrollments(x) / 3)
    case Freshness => Entropy.Clamp(BPS - (scope.now - x.time) * BPS / (scope.epochSeconds * 1000))
    case Accuracy => Entropy.Clamp(BPS - x.gps * BPS / GPS_LIMIT)
    case Service => if x.evidence.NoEvidence? then 0 else if x.evidence.MatchingWifi? then BPS else PRESENCE
  }

  function Least(scope: Scope, aspect: Aspect, xs: seq<Input>): int
    requires scope.epochSeconds >= 1 && xs != []
  {
    var last := ValueOf(scope, aspect, xs[|xs| - 1]);
    if |xs| == 1 then last
    else
      var rest := Least(scope, aspect, xs[..|xs| - 1]);
      if last < rest then last else rest
  }

  function Sum(xs: seq<int>): int { if xs == [] then 0 else Sum(xs[..|xs| - 1]) + xs[|xs| - 1] }
  function Average(xs: seq<int>): int { if xs == [] then 0 else Sum(xs) / |xs| }

  type Groups = seq<seq<Input>>
  ghost predicate Filled(groups: Groups) { groups != [] && forall i :: 0 <= i < |groups| ==> groups[i] != [] }

  function Weakest(scope: Scope, aspect: Aspect, groups: Groups): int
    requires scope.epochSeconds >= 1 && forall i :: 0 <= i < |groups| ==> groups[i] != []
  {
    Average(seq(|groups|, i requires 0 <= i < |groups| => Least(scope, aspect, groups[i])))
  }

  function Witness(groups: nat): int { Entropy.Clamp(groups * 2_000 / 3) }

  /** The one place all of a group's records agree on, each with a usable accuracy. */
  function PlaceOf(xs: seq<Input>): Option<nat>
    requires xs != []
  {
    if xs[0].place.Some? && forall x :: x in xs ==> x.gps > 0 && x.place == xs[0].place then xs[0].place else None
  }

  datatype Mark = Mark(place: Option<nat>, quality: int)

  function MarkOf(scope: Scope, xs: seq<Input>): Mark
    requires scope.epochSeconds >= 1 && xs != []
  {
    if PlaceOf(xs).None? then Mark(None, 0) else Mark(PlaceOf(xs), Least(scope, Accuracy, xs))
  }

  function Marks(scope: Scope, groups: Groups): seq<Mark>
    requires scope.epochSeconds >= 1 && forall i :: 0 <= i < |groups| ==> groups[i] != []
  {
    seq(|groups|, i requires 0 <= i < |groups| => MarkOf(scope, groups[i]))
  }

  function Votes(marks: seq<Mark>, place: nat): int {
    if marks == [] then 0
    else
      var last := marks[|marks| - 1];
      Votes(marks[..|marks| - 1], place) + if last.place == Some(place) then last.quality else 0
  }

  /** The most votes any of the places named by candidates has among all marks. */
  function Best(marks: seq<Mark>, candidates: seq<Mark>): int {
    if candidates == [] then 0
    else
      var place := candidates[|candidates| - 1].place;
      var rest := Best(marks, candidates[..|candidates| - 1]);
      if place.Some? && Votes(marks, place.value) > rest then Votes(marks, place.value) else rest
  }

  function Spatial(scope: Scope, marks: seq<Mark>): int
    requires marks != []
  {
    var n := |marks|;
    var agreed := Best(marks, marks) / n;
    var claimed := if scope.claimed.None? then agreed
                   else (agreed * n + Votes(marks, scope.claimed.value)) / (2 * n);
    if n < 3 && claimed > 5_000 then 5_000 else claimed
  }

  function Located(marks: seq<Mark>): nat {
    if marks == [] then 0
    else Located(marks[..|marks| - 1]) + if marks[|marks| - 1].place.Some? then 1 else 0
  }

  function Devices(xs: seq<Input>): seq<nat> { seq(|xs|, i requires 0 <= i < |xs| => xs[i].device) }
  function Hours(xs: seq<Input>): seq<nat> { seq(|xs|, i requires 0 <= i < |xs| => xs[i].time / HOUR_MS % 24) }
  function Places(xs: seq<Input>): seq<nat> {
    if xs == [] then []
    else Places(xs[..|xs| - 1]) + if xs[|xs| - 1].place.Some? then [xs[|xs| - 1].place.value] else []
  }

  ghost function Variety(history: seq<Input>, fraction: nat): int {
    Average([Entropy.Score(multiset(Devices(history)), fraction), Entropy.Score(multiset(Hours(history)), fraction),
             Entropy.Score(multiset(Places(history)), fraction)])
  }

  ghost function Varieties(reps: map<nat, nat>, roots: seq<nat>, window: seq<Input>, fraction: nat): seq<int> {
    seq(|roots|, i requires 0 <= i < |roots| => Variety(Select(Class(reps, roots[i]), window), fraction))
  }

  ghost function Behavior(reps: map<nat, nat>, roots: seq<nat>, window: seq<Input>, fraction: nat): int {
    Average(Varieties(reps, roots, window, fraction))
  }

  function Weighted(f: Facets): int {
    (f.hardware * 2_500 + f.freshness * 1_000 + f.diversity * 3_000 + f.spatial * 1_500 + f.behavior * 1_500 +
     f.service * 500) / BPS
  }

  // ---------- the report ----------

  ghost function RepsOf(scope: Scope, records: seq<Input>): (reps: map<nat, nat>)
    ensures forall x :: x in TargetOf(scope, records) ==> x.pseudonym in reps
  {
    var ps := AllPseudonyms(scope, records);
    var target := TargetOf(scope, records);
    assert forall i :: 0 <= i < |target| ==> Pseudonyms(target)[i] in ps;
    UnionFind.Reps(ps, Slots(ps, WindowOf(scope, records)))
  }

  function Named(reps: map<nat, nat>, target: seq<Input>): seq<nat>
    requires forall x :: x in target ==> x.pseudonym in reps
  {
    seq(|target|, i requires 0 <= i < |target| => reps[target[i].pseudonym])
  }

  function RootsOf(reps: map<nat, nat>, target: seq<Input>): seq<nat>
    requires forall x :: x in target ==> x.pseudonym in reps
  {
    Distinct(Named(reps, target))
  }

  function GroupsOf(reps: map<nat, nat>, roots: seq<nat>, target: seq<Input>): Groups {
    seq(|roots|, i requires 0 <= i < |roots| => Select(Class(reps, roots[i]), target))
  }

  lemma GroupsFilled(reps: map<nat, nat>, target: seq<Input>)
    requires target != [] && forall x :: x in target ==> x.pseudonym in reps
    ensures Filled(GroupsOf(reps, RootsOf(reps, target), target))
  {
    var named := Named(reps, target);
    var roots := RootsOf(reps, target);
    assert named[0] in roots;
    forall i | 0 <= i < |roots| ensures Select(Class(reps, roots[i]), target) != [] {
      assert roots[i] in named;
      var k :| 0 <= k < |target| && named[k] == roots[i];
      assert target[k] in Select(Class(reps, roots[i]), target);
    }
  }

  ghost function FacetsOf(scope: Scope, records: seq<Input>, fraction: nat): Facets
    requires scope.epochSeconds >= 1 && TargetOf(scope, records) != []
  {
    var target := TargetOf(scope, records);
    var reps := RepsOf(scope, records);
    var roots := RootsOf(reps, target);
    var groups := GroupsOf(reps, roots, target);
    GroupsFilled(reps, target);
    Facets(Weakest(scope, Hardware, groups), Weakest(scope, Freshness, groups), Witness(|groups|),
           Spatial(scope, Marks(scope, groups)), Behavior(reps, roots, WindowOf(scope, records), fraction),
           Weakest(scope, Service, groups))
  }

  function StatusOf(groups: nat, f: Facets): Status {
    if groups >= 3 && f.diversity >= 5_000 && f.hardware >= 8_000 then Verified else Low
  }

  function ReportOf(scope: Scope, records: seq<Input>, facets: Facets, groups: Groups): Report
    requires scope.epochSeconds >= 1 && Filled(groups)
  {
    var target := TargetOf(scope, records);
    Report(records, facets, Weighted(facets), |target|, |groups|, |WindowOf(scope, records)|,
           Located(Marks(scope, groups)), forall x :: x in target ==> !x.risk.Unknown?, StatusOf(|groups|, facets))
  }

  ghost function Evaluate(tree: Tree, scope: Scope, records: seq<Input>, fraction: nat): Result<Report, Error>
    requires scope.epochSeconds >= 1
  {
    var target := TargetOf(scope, records);
    if !Complete(scope, target) then Err(IncompleteTarget)
    else if ObservationTree.Refolded(tree, scope.order).root != scope.root then Err(TreeMismatch)
    else if |AllPseudonyms(scope, records)| > MAX_PSEUDONYMS then Err(TooManyPseudonyms)
    else
      var facets := FacetsOf(scope, records, fraction);
      var reps := RepsOf(scope, records);
      var groups := GroupsOf(reps, RootsOf(reps, target), target);
      GroupsFilled(reps, target);
      Ok(ReportOf(scope, records, facets, groups))
  }

  /** The report, or the reason there is none. */
  ghost function Confidence(tree: Tree, scope: Scope, inputs: seq<Input>, fraction: nat): Result<Report, Error> {
    if !ScopeOk(scope, |inputs|) then Err(InvalidScope)
    else if Problem(scope, inputs).Some? then Err(Problem(scope, inputs).value)
    else Evaluate(tree, scope, Sorted(inputs), fraction)
  }

  method FindEach(forest: UnionFind.Forest<nat>, ps: seq<nat>) returns (reps: map<nat, nat>)
    requires forest.Valid() && forest.parent.Keys == set p | p in ps
    modifies forest`parent
    ensures forest.Valid() && reps == old(forest.rep)
  {
    reps := map[];
    for i := 0 to |ps|
      invariant forest.Valid() && forest.parent.Keys == set p | p in ps
      invariant reps.Keys == set p | p in ps[..i]
      invariant forall p :: p in reps ==> p in forest.rep && reps[p] == forest.rep[p]
    {
      var root := forest.Find(ps[i]);
      assert ps[..i + 1] == ps[..i] + [ps[i]];
      reps := reps[ps[i] := root];
    }
    assert ps[..|ps|] == ps;
  }

  /** The records at the given positions. */
  function Pick(target: seq<Input>, bucket: seq<nat>): seq<Input>
    requires forall i :: 0 <= i < |bucket| ==> bucket[i] < |target|
  {
    seq(|bucket|, i requires 0 <= i < |bucket| => target[bucket[i]])
  }

  lemma SelectNext(sel: Selection, target: seq<Input>, k: nat)
    requires 0 < k <= |target|
    ensures Select(sel, target[..k]) ==
      Select(sel, target[..k - 1]) + if Selected(sel, target[k - 1]) then [target[k - 1]] else []
  {
    assert target[..k][..k - 1] == target[..k - 1];
  }

  /** The bucket holds exactly the positions below k with root g, in increasing order. */
  ghost predicate IsBucket(reps: map<nat, nat>, target: seq<Input>, k: nat, g: nat, bucket: seq<nat>)
    requires k <= |target| && forall x :: x in target ==> x.pseudonym in reps
  {
    && Increasing(bucket)
    && (forall i :: 0 <= i < |bucket| ==> bucket[i] < k && reps[target[bucket[i]].pseudonym] == g)
    && (forall i: nat :: i < k && reps[target[i].pseudonym] == g ==> i in bucket)
  }

  lemma BucketEnds(reps: map<nat, nat>, target: seq<Input>, k: nat, g: nat, bucket: seq<nat>)
    requires 0 < k <= |target| && (forall x :: x in target ==> x.pseudonym in reps)
    requires IsBucket(reps, target, k, g, bucket) && reps[target[k - 1].pseudonym] == g
    ensures bucket != [] && bucket[|bucket| - 1] == k - 1
    ensures IsBucket(reps, target, k - 1, g, bucket[..|bucket| - 1])
  {
    LastIsGreatest(bucket, k - 1);
    assert bucket == bucket[..|bucket| - 1] + [k - 1];
  }

  lemma BucketStays(reps: map<nat, nat>, target: seq<Input>, k: nat, g: nat, bucket: seq<nat>)
    requires 0 < k <= |target| && (forall x :: x in target ==> x.pseudonym in reps)
    requires IsBucket(reps, target, k, g, bucket) && reps[target[k - 1].pseudonym] != g
    ensures IsBucket(reps, target, k - 1, g, bucket)
  {
    forall i | 0 <= i < |bucket| ensures bucket[i] != k - 1 {}
  }

  lemma {:induction false} BucketIsClass(reps: map<nat, nat>, target: seq<Input>, k: nat, g: nat, bucket: seq<nat>)
    requires k <= |target| && (forall x :: x in target ==> x.pseudonym in reps)
    requires IsBucket(reps, target, k, g, bucket)
    ensures Pick(target, bucket) == Select(Class(reps, g), target[..k])
  {
    if k > 0 {
      var last := |bucket| - 1;
      SelectNext(Class(reps, g), target, k);
      if reps[target[k - 1].pseudonym] == g {
        BucketEnds(reps, target, k, g, bucket);
        BucketIsClass(reps, target, k - 1, g, bucket[..last]);
        PickNext(target, bucket);
      } else {
        BucketStays(reps, target, k, g, bucket);
        BucketIsClass(reps, target, k - 1, g, bucket);
      }
    } else {
      assert bucket == [];
    }
  }

  lemma PickNext(target: seq<Input>, bucket: seq<nat>)
    requires bucket != [] && forall i :: 0 <= i < |bucket| ==> bucket[i] < |target|
    ensures Pick(target, bucket) == Pick(target, bucket[..|bucket| - 1]) + [target[bucket[|bucket| - 1]]]
  {
  }

  lemma LastIsGreatest(bucket: seq<nat>, top: nat)
    requires Increasing(bucket) && top in bucket && forall i :: 0 <= i < |bucket| ==> bucket[i] <= top
    ensures bucket[|bucket| - 1] == top
  {
    var i :| 0 <= i < |bucket| && bucket[i] == top;
    assert bucket[i] <= bucket[|bucket| - 1];
  }

  lemma {:induction false} IncreasingUnique(a: seq<nat>, b: seq<nat>)
    requires Increasing(a) && Increasing(b) && Members(a) == Members(b)
    ensures a == b
    decreases |a|
  {
    CountIncreasing(a);
    CountIncreasing(b);
    if a != [] {
      var n := |a| - 1;
      LastOfBoth(a, b);
      TailMembers(a);
      TailMembers(b);
      IncreasingUnique(a[..n], b[..n]);
      assert a == a[..n] + [a[n]] && b == b[..n] + [b[n]];
    }
  }

  lemma LastOfBoth(a: seq<nat>, b: seq<nat>)
    requires Increasing(a) && Increasing(b) && Members(a) == Members(b) && a != [] && |a| == |b|
    ensures a[|a| - 1] == b[|b| - 1]
  {
    assert a[|a| - 1] in Members(b) && b[|b| - 1] in Members(a);
    assert a[|a| - 1] in b && b[|b| - 1] in a;
  }

  lemma TailMembers(a: seq<nat>)
    requires Increasing(a) && a != []
    ensures Increasing(a[..|a| - 1]) && Members(a[..|a| - 1]) == Members(a) - {a[|a| - 1]}
  {
    assert a == a[..|a| - 1] + [a[|a| - 1]];
  }

  /** The keys of a map in increasing order. */
  method SortedKeys(m: map<nat, seq<nat>>) returns (keys: seq<nat>)
    ensures Increasing(keys) && Members(keys) == m.Keys
  {
    keys := [];
    var rest := m.Keys;
    while rest != {}
      invariant rest <= m.Keys && Increasing(keys) && Members(keys) == m.Keys - rest
      decreases |rest|
    {
      var g :| g in rest;
      InsertIncreasing(g, keys);
      assert Members(InsertNat(g, keys)) == Members(keys) + {g};
      keys := InsertNat(g, keys);
      rest := rest - {g};
    }
  }

  /** The target records under the roots of their pseudonyms, in the order of the roots. */
  method GroupRecords(forest: UnionFind.Forest<nat>, target: seq<Input>) returns (roots: seq<nat>, groups: Groups)
    requires forest.Valid() && forall x :: x in target ==> x.pseudonym in forest.rep
    modifies forest`parent
    ensures forest.Valid() && forest.rep == old(forest.rep)
    ensures roots == RootsOf(forest.rep, target) && groups == GroupsOf(forest.rep, roots, target)
  {
    var ps := Pseudonyms(target);
    var positions := UnionFind.GroupTargets(forest, ps);
    roots := SortedKeys(positions);
    KeysAreRoots(forest.rep, target, positions);
    DistinctIncreasing(Named(forest.rep, target));
    IncreasingUnique(roots, RootsOf(forest.rep, target));
    groups := PickGroups(forest.rep, target, positions, roots);
  }

  method PickGroups(ghost reps: map<nat, nat>, target: seq<Input>, positions: map<nat, seq<nat>>, roots: seq<nat>)
    returns (groups: Groups)
    requires (forall x :: x in target ==> x.pseudonym in reps) && Members(roots) == positions.Keys
    requires UnionFind.Collected(reps, Pseudonyms(target), |target|, positions)
    ensures groups == GroupsOf(reps, roots, target)
  {
    groups := [];
    for i := 0 to |roots|
      invariant groups == GroupsOf(reps, roots[..i], target)
    {
      assert roots[i] in Members(roots);
      PositionsAreClass(reps, target, positions, roots[i]);
      GroupsNext(reps, roots, target, i);
      groups := groups + [Pick(target, positions[roots[i]])];
    }
    assert roots[..|roots|] == roots;
  }

  lemma GroupsNext(reps: map<nat, nat>, roots: seq<nat>, target: seq<Input>, i: nat)
    requires i < |roots|
    ensures GroupsOf(reps, roots[..i + 1], target) ==
      GroupsOf(reps, roots[..i], target) + [Select(Class(reps, roots[i]), target)]
  {
  }

  lemma KeysAreRoots(reps: map<nat, nat>, target: seq<Input>, positions: map<nat, seq<nat>>)
    requires forall x :: x in target ==> x.pseudonym in reps
    requires UnionFind.Collected(reps, Pseudonyms(target), |target|, positions)
    ensures positions.Keys == Members(RootsOf(reps, target))
  {
    var ps, named := Pseudonyms(target), Named(reps, target);
    forall g | g in positions ensures g in named {
      assert UnionFind.Bucket(reps, ps, |target|, g, positions[g]);
      var i := positions[g][0];
      assert named[i] == g;
    }
    forall g | g in named ensures g in positions {
      var i :| 0 <= i < |named| && named[i] == g;
      assert reps[ps[i]] in positions;
    }
  }

  lemma PositionsAreClass(reps: map<nat, nat>, target: seq<Input>, positions: map<nat, seq<nat>>, g: nat)
    requires forall x :: x in target ==> x.pseudonym in reps
    requires UnionFind.Collected(reps, Pseudonyms(target), |target|, positions) && g in positions
    ensures forall i :: 0 <= i < |positions[g]| ==> positions[g][i] < |target|
    ensures Pick(target, positions[g]) == Select(Class(reps, g), target)
  {
    var ps, bucket := Pseudonyms(target), positions[g];
    assert UnionFind.Bucket(reps, ps, |target|, g, bucket);
    forall i: nat | i < |target| && reps[target[i].pseudonym] == g ensures i in bucket {
      assert i in positions[reps[ps[i]]];
    }
    assert IsBucket(reps, target, |target|, g, bucket);
    BucketIsClass(reps, target, |target|, g, bucket);
    assert target[..|target|] == target;
  }

  method ComputeVariety(history: seq<Input>, fraction: nat) returns (v: int)
    ensures v == Variety(history, fraction)
  {
    var devices := Entropy.Compute(Devices(history), fraction);
    var hours := Entropy.Compute(Hours(history), fraction);
    var places := Entropy.Compute(Places(history), fraction);
    return Average([devices, hours, places]);
  }

  lemma AllVarieties(reps: map<nat, nat>, roots: seq<nat>, window: seq<Input>, fraction: nat, values: seq<int>)
    requires |values| == |roots|
    requires forall k :: 0 <= k < |roots| ==> values[k] == Variety(Select(Class(reps, roots[k]), window), fraction)
    ensures values == Varieties(reps, roots, window, fraction)
  {
  }

  method ComputeBehavior(reps: map<nat, nat>, roots: seq<nat>, window: seq<Input>, fraction: nat) returns (b: int)
    ensures b == Behavior(reps, roots, window, fraction)
  {
    var values: seq<int> := [];
    for i := 0 to |roots|
      invariant |values| == i
      invariant forall k :: 0 <= k < i ==> values[k] == Variety(Select(Class(reps, roots[k]), window), fraction)
    {
      var v := ComputeVariety(Select(Class(reps, roots[i]), window), fraction);
      values := values + [v];
    }
    AllVarieties(reps, roots, window, fraction, values);
    return Average(values);
  }

  method ComputeConfidence(tree: Tree, scope: Scope, inputs: seq<Input>, fraction: nat)
    returns (r: Result<Report, Error>)
    ensures r == Confidence(tree, scope, inputs, fraction)
  {
    if !ScopeOk(scope, |inputs|) { return Err(InvalidScope); }
    var refused := Admit(scope, inputs);
    if refused.Some? { return Err(refused.value); }
    SortedSorts(inputs);
    SameLength(inputs, Sorted(inputs));
    r := Assess(tree, scope, Sorted(inputs), fraction);
  }

  method Assess(tree: Tree, scope: Scope, records: seq<Input>, fraction: nat) returns (r: Result<Report, Error>)
    requires scope.epochSeconds >= 1 && |records| <= MAX_RECORDS
    ensures r == Evaluate(tree, scope, records, fraction)
  {
    var target := TargetOf(scope, records);
    if !Complete(scope, target) { return Err(IncompleteTarget); }
    var root := ObservationTree.Refold(tree, scope.order);
    if root != scope.root { return Err(TreeMismatch); }
    var ps := AllPseudonyms(scope, records);
    if |ps| > MAX_PSEUDONYMS { return Err(TooManyPseudonyms); }
    var facets, groups := ComputeFacets(scope, records, fraction);
    GroupsFilled(RepsOf(scope, records), target);
    return Ok(ReportOf(scope, records, facets, groups));
  }

  method ComputeFacets(scope: Scope, records: seq<Input>, fraction: nat) returns (facets: Facets, groups: Groups)
    requires scope.epochSeconds >= 1 && TargetOf(scope, records) != []
    ensures facets == FacetsOf(scope, records, fraction)
    ensures var reps := RepsOf(scope, records);
      groups == GroupsOf(reps, RootsOf(reps, TargetOf(scope, records)), TargetOf(scope, records))
  {
    var target, window, ps := TargetOf(scope, records), WindowOf(scope, records), AllPseudonyms(scope, records);
    var forest := UnionFind.Group(ps, Slots(ps, window));
    var roots;
    roots, groups := GroupRecords(forest, target);
    var reps := FindEach(forest, ps);
    GroupsFilled(reps, target);
    var behavior := ComputeBehavior(reps, roots, window, fraction);
    facets := Facets(Weakest(scope, Hardware, groups), Weakest(scope, Freshness, groups), Witness(|groups|),
                     Spatial(scope, Marks(scope, groups)), behavior, Weakest(scope, Service, groups));
  }

  // ---------- what the report promises ----------

  predicate InScale(n: int) { 0 <= n <= BPS }

  lemma ValueInScale(scope: Scope, aspect: Aspect, x: Input)
    requires scope.epochSeconds >= 1
    ensures InScale(ValueOf(scope, aspect, x))
  {
    if aspect.Hardware? {
      QuotientBelow(ClassScore(x.observerClass), 1 + Reenrollments(x) / 3);
    }
  }

  lemma QuotientBelow(a: nat, d: nat)
    requires d >= 1
    ensures 0 <= a / d <= a
  {
    Powers.MulMono(1, d, a);
    Entropy.QuotientBound(a, d, a);
  }

  lemma {:induction false} LeastInScale(scope: Scope, aspect: Aspect, xs: seq<Input>)
    requires scope.epochSeconds >= 1 && xs != []
    ensures InScale(Least(scope, aspect, xs))
  {
    ValueInScale(scope, aspect, xs[|xs| - 1]);
    if |xs| > 1 { LeastInScale(scope, aspect, xs[..|xs| - 1]); }
  }

  lemma {:induction false} SumBound(xs: seq<int>)
    requires forall i :: 0 <= i < |xs| ==> InScale(xs[i])
    ensures 0 <= Sum(xs) <= BPS * |xs|
  {
    if xs != [] { SumBound(xs[..|xs| - 1]); }
  }

  lemma QuotientInScale(total: int, n: nat)
    requires n >= 1 && 0 <= total <= BPS * n
    ensures InScale(total / n)
  {
    Entropy.QuotientBound(total, n, BPS);
  }

  lemma AverageInScale(xs: seq<int>)
    requires forall i :: 0 <= i < |xs| ==> InScale(xs[i])
    ensures InScale(Average(xs))
  {
    SumBound(xs);
    if xs != [] { QuotientInScale(Sum(xs), |xs|); }
  }

  lemma WeakestInScale(scope: Scope, aspect: Aspect, groups: Groups)
    requires scope.epochSeconds >= 1 && Filled(groups)
    ensures InScale(Weakest(scope, aspect, groups))
  {
    forall i | 0 <= i < |groups| ensures InScale(Least(scope, aspect, groups[i])) {
      LeastInScale(scope, aspect, groups[i]);
    }
    AverageInScale(seq(|groups|, i requires 0 <= i < |groups| => Least(scope, aspect, groups[i])));
  }

  lemma {:induction false} VotesBound(marks: seq<Mark>, place: nat)
    requires forall i :: 0 <= i < |marks| ==> InScale(marks[i].quality)
    ensures 0 <= Votes(marks, place) <= BPS * |marks|
  {
    if marks != [] { VotesBound(marks[..|marks| - 1], place); }
  }

  lemma {:induction false} BestBound(marks: seq<Mark>, candidates: seq<Mark>)
    requires forall i :: 0 <= i < |marks| ==> InScale(marks[i].quality)
    ensures 0 <= Best(marks, candidates) <= BPS * |marks|
  {
    if candidates != [] {
      BestBound(marks, candidates[..|candidates| - 1]);
      var place := candidates[|candidates| - 1].place;
      if place.Some? { VotesBound(marks, place.value); }
    }
  }

  lemma SpatialInScale(scope: Scope, groups: Groups)
    requires scope.epochSeconds >= 1 && Filled(groups)
    ensures InScale(Spatial(scope, Marks(scope, groups)))
  {
    var marks := Marks(scope, groups);
    var n := |marks|;
    forall i | 0 <= i < |marks| ensures InScale(marks[i].quality) {
      LeastInScale(scope, Accuracy, groups[i]);
    }
    BestBound(marks, marks);
    QuotientInScale(Best(marks, marks), n);
    if scope.claimed.Some? {
      VotesBound(marks, scope.claimed.value);
      var agreed := Best(marks, marks) / n;
      assert 0 <= agreed * n <= BPS * n;
      QuotientInScale(agreed * n + Votes(marks, scope.claimed.value), 2 * n);
    }
  }

  lemma VarietyInScale(history: seq<Input>, fraction: nat)
    ensures InScale(Variety(history, fraction))
  {
    AverageInScale([Entropy.Score(multiset(Devices(history)), fraction),
                    Entropy.Score(multiset(Hours(history)), fraction),
                    Entropy.Score(multiset(Places(history)), fraction)]);
  }

  lemma BehaviorInScale(reps: map<nat, nat>, roots: seq<nat>, window: seq<Input>, fraction: nat)
    ensures InScale(Behavior(reps, roots, window, fraction))
  {
    var values := Varieties(reps, roots, window, fraction);
    forall i | 0 <= i < |values| ensures InScale(values[i]) {
      VarietyInScale(Select(Class(reps, roots[i]), window), fraction);
    }
    AverageInScale(values);
  }

  ghost predicate FacetsInScale(f: Facets) {
    InScale(f.hardware) && InScale(f.freshness) && InScale(f.diversity) && InScale(f.spatial) && InScale(f.behavior) &&
    InScale(f.service)
  }

  lemma ComputedInScale(scope: Scope, records: seq<Input>, fraction: nat)
    requires scope.epochSeconds >= 1 && TargetOf(scope, records) != []
    ensures FacetsInScale(FacetsOf(scope, records, fraction))
  {
    var target, reps := TargetOf(scope, records), RepsOf(scope, records);
    var roots := RootsOf(reps, target);
    var groups := GroupsOf(reps, roots, target);
    GroupsFilled(reps, target);
    WeakestInScale(scope, Hardware, groups);
    WeakestInScale(scope, Freshness, groups);
    WeakestInScale(scope, Service, groups);
    SpatialInScale(scope, groups);
    BehaviorInScale(reps, roots, WindowOf(scope, records), fraction);
  }

  /** Every facet and the score of every report lie in 0..10000. */
  lemma ReportInScale(tree: Tree, scope: Scope, inputs: seq<Input>, fraction: nat)
    ensures Confidence(tree, scope, inputs, fraction).Ok? ==>
      var report := Confidence(tree, scope, inputs, fraction).value;
      FacetsInScale(report.facets) && InScale(report.score)
  {
    if Confidence(tree, scope, inputs, fraction).Ok? { ComputedInScale(scope, Sorted(inputs), fraction); }
  }

  /** The connected components of similar pseudonyms that the target epoch's observers belong to. */
  ghost function TargetComponents(scope: Scope, records: seq<Input>): set<set<nat>> {
    var ps := AllPseudonyms(scope, records);
    var slots := Slots(ps, WindowOf(scope, records));
    UnionFind.Components(RepsOf(scope, records), UnionFind.SimilarPairs(ps, slots),
                         Members(Pseudonyms(TargetOf(scope, records))))
  }

  lemma CountRoots(reps: map<nat, nat>, target: seq<Input>)
    requires forall x :: x in target ==> x.pseudonym in reps
    ensures Members(Pseudonyms(target)) <= reps.Keys
    ensures |RootsOf(reps, target)| == |UnionFind.Roots(reps, Members(Pseudonyms(target)))|
  {
    CountDistinct(Named(reps, target));
    RootSet(reps, target);
  }

  lemma GroupsAreComponents(scope: Scope, records: seq<Input>)
    ensures |RootsOf(RepsOf(scope, records), TargetOf(scope, records))| == |TargetComponents(scope, records)|
  {
    var ps := AllPseudonyms(scope, records);
    var slots := Slots(ps, WindowOf(scope, records));
    UnionFind.RepsNameComponents(ps, slots);
    CountRoots(RepsOf(scope, records), TargetOf(scope, records));
    UnionFind.RootsAreComponents(RepsOf(scope, records), UnionFind.SimilarPairs(ps, slots),
                                 Members(Pseudonyms(TargetOf(scope, records))));
  }

  /** Seven groups weigh 4666, eight weigh 5333. */
  lemma WitnessNeedsEight(groups: nat)
    ensures Witness(groups) >= 5_000 <==> groups >= 8
  {
  }

  lemma StatusNeedsEight(tree: Tree, scope: Scope, records: seq<Input>, fraction: nat)
    requires scope.epochSeconds >= 1
    ensures Evaluate(tree, scope, records, fraction).Ok? ==>
      var report := Evaluate(tree, scope, records, fraction).value;
      report.groups == |RootsOf(RepsOf(scope, records), TargetOf(scope, records))| &&
      (report.status == Verified <==> report.groups >= 8 && report.facets.hardware >= 8_000)
  {
    WitnessNeedsEight(|RootsOf(RepsOf(scope, records), TargetOf(scope, records))|);
  }

  /** A report's group count is the number of those components, and VERIFIED needs at least eight. */
  lemma VerifiedNeedsEightGroups(tree: Tree, scope: Scope, inputs: seq<Input>, fraction: nat)
    ensures Confidence(tree, scope, inputs, fraction).Ok? ==>
      var report := Confidence(tree, scope, inputs, fraction).value;
      report.groups == |TargetComponents(scope, Sorted(inputs))| &&
      (report.status == Verified <==> report.groups >= 8 && report.facets.hardware >= 8_000)
  {
    if Confidence(tree, scope, inputs, fraction).Ok? {
      StatusNeedsEight(tree, scope, Sorted(inputs), fraction);
      GroupsAreComponents(scope, Sorted(inputs));
    }
  }

  function Members(xs: seq<nat>): set<nat> { set x | x in xs }

  lemma {:induction false} CountDistinct(xs: seq<nat>)
    ensures |Distinct(xs)| == |Members(xs)|
  {
    DistinctIncreasing(xs);
    CountIncreasing(Distinct(xs));
    assert Members(xs) == Members(Distinct(xs));
  }

  lemma {:induction false} CountIncreasing(xs: seq<nat>)
    requires Increasing(xs)
    ensures |Members(xs)| == |xs|
  {
    if xs != [] {
      var last := |xs| - 1;
      CountIncreasing(xs[..last]);
      assert xs == xs[..last] + [xs[last]];
      assert Members(xs) == Members(xs[..last]) + {xs[last]};
      assert xs[last] !in Members(xs[..last]);
    }
  }

  /** The distinct roots of the target records are the roots of their pseudonyms. */
  lemma RootSet(reps: map<nat, nat>, target: seq<Input>)
    requires forall x :: x in target ==> x.pseudonym in reps
    ensures Members(Pseudonyms(target)) <= reps.Keys
    ensures Members(Named(reps, target)) == UnionFind.Roots(reps, Members(Pseudonyms(target)))
  {
    var ps, named := Pseudonyms(target), Named(reps, target);
    forall p | p in ps ensures p in reps && reps[p] in named {
      var i :| 0 <= i < |ps| && ps[i] == p;
      assert target[i] in target && named[i] == reps[p];
    }
    forall x | x in named ensures x in UnionFind.Roots(reps, Members(ps)) {
      var i :| 0 <= i < |named| && named[i] == x;
      assert ps[i] in Members(ps);
    }
  }

  /** Two inputs with the same hash are the same transcript, and so share the nullifier. */
  ghost predicate HashesBind(inputs: seq<Input>) {
    forall x, y :: x in multiset(inputs) && y in multiset(inputs) && x.hash == y.hash ==> x.nullifier == y.nullifier
  }

  lemma AdmittedAreDistinct(scope: Scope, inputs: seq<Input>)
    requires scope.epochSeconds >= 1 && Problem(scope, inputs).None?
    ensures forall x :: x in multiset(inputs) ==> multiset(inputs)[x] == 1
    ensures forall x, y :: x in multiset(inputs) && y in multiset(inputs) && x.nullifier == y.nullifier ==> x == y
  {
    ProblemMeans(scope, inputs);
    forall x, y | x in multiset(inputs) && y in multiset(inputs) && x.nullifier == y.nullifier
      ensures x == y && multiset(inputs)[x] == 1
    {
      assert !Clashing(scope, multiset(inputs), x, y) && !Clashing(scope, multiset(inputs), x, x);
      assert x != y ==> multiset{x, y} <= multiset(inputs);
      assert multiset(inputs)[x] > 1 ==> multiset{x, x} <= multiset(inputs);
    }
  }

  /** The outcome depends on the inputs, not on their order, except for which intake error is raised when
      two different ones can be. */
  lemma OrderIrrelevant(tree: Tree, scope: Scope, a: seq<Input>, b: seq<Input>, fraction: nat)
    requires multiset(a) == multiset(b) && HashesBind(a)
    ensures Confidence(tree, scope, a, fraction).Ok? <==> Confidence(tree, scope, b, fraction).Ok?
    ensures Confidence(tree, scope, a, fraction) == Confidence(tree, scope, b, fraction) ||
      (scope.epochSeconds >= 1 && exists e, f :: TwoErrors(scope, a, e, f))
  {
    SameLength(a, b);
    if ScopeOk(scope, |a|) {
      SameUnlessTwo(scope, a, b);
      if Problem(scope, a).None? {
        AdmittedAreDistinct(scope, a);
        SortedSorts(a);
        SortedSorts(b);
        SortedUnique(Sorted(a), Sorted(b));
      }
    }
  }

  ghost predicate OutcomeIsFree(tree: Tree, scope: Scope, a: seq<Input>, fraction: nat) {
    forall b :: multiset(b) == multiset(a) ==>
      Confidence(tree, scope, b, fraction) == Confidence(tree, scope, a, fraction)
  }

  /** The outcome is the same in every order if and only if the scope is refused or no two different
      intake errors can be raised. */
  lemma OutcomeIsOrderFree(tree: Tree, scope: Scope, a: seq<Input>, fraction: nat)
    requires HashesBind(a)
    ensures OutcomeIsFree(tree, scope, a, fraction) <==>
      !ScopeOk(scope, |a|) || !exists e, f :: TwoErrors(scope, a, e, f)
  {
    if ScopeOk(scope, |a|) && exists e, f :: TwoErrors(scope, a, e, f) {
      var e, f :| TwoErrors(scope, a, e, f);
      var b := RaisedFirst(scope, a, e);
      var c := RaisedFirst(scope, a, f);
      SameLength(a, b);
      SameLength(a, c);
      assert Confidence(tree, scope, b, fraction) != Confidence(tree, scope, c, fraction);
    } else {
      forall b | multiset(b) == multiset(a)
        ensures Confidence(tree, scope, b, fraction) == Confidence(tree, scope, a, fraction)
      {
        SameLength(a, b);
        if ScopeOk(scope, |a|) { OrderIrrelevant(tree, scope, a, b, fraction); }
      }
    }
  }

  // ---------- the report and the chain ----------

  /** A report's transcript order is the order in which the chain got the transcripts. */
  lemma ReportOrderIsChainOrder(tree: Tree, scope: Scope, inputs: seq<Input>, fraction: nat,
                                events: seq<ObservationTree.Input<nat, nat>>)
    requires ObservationTree.Fits(tree) && ObservationTree.Separated(tree)
    ensures Confidence(tree, scope, inputs, fraction).Ok? ==>
      var chain := ObservationTree.RunOf(tree, events);
      chain.transcripts != [] && scope.root == chain.epoch.root ==> scope.order == chain.transcripts
  {
    var chain := ObservationTree.RunOf(tree, events);
    if Confidence(tree, scope, inputs, fraction).Ok? && chain.transcripts != [] && scope.root == chain.epoch.root {
      SortedSorts(inputs);
      SameLength(inputs, Sorted(inputs));
      ObservationTree.RefoldDeterminesTranscripts(tree, scope.order, events);
    }
  }

  function Hashes(xs: seq<Input>): (hs: seq<nat>)
    ensures |hs| == |xs| && forall i :: 0 <= i < |xs| ==> hs[i] == xs[i].hash
  {
    seq(|xs|, i requires 0 <= i < |xs| => xs[i].hash)
  }

  ghost predicate AllDifferent(hs: seq<nat>) {
    forall i, j :: 0 <= i < j < |hs| ==> hs[i] != hs[j]
  }

  lemma {:induction false} CountDifferent(hs: seq<nat>)
    requires AllDifferent(hs)
    ensures |Members(hs)| == |hs|
  {
    if hs != [] {
      var n := |hs| - 1;
      CountDifferent(hs[..n]);
      assert hs == hs[..n] + [hs[n]];
      assert Members(hs) == Members(hs[..n]) + {hs[n]};
      assert hs[n] !in Members(hs[..n]);
    }
  }

  lemma {:induction false} SelectionDiffers(sel: Selection, xs: seq<Input>)
    requires AllDifferent(Hashes(xs))
    ensures AllDifferent(Hashes(Select(sel, xs)))
  {
    if xs != [] {
      var n := |xs| - 1;
      var front := Select(sel, xs[..n]);
      assert AllDifferent(Hashes(xs[..n])) by {
        forall i, j | 0 <= i < j < n ensures Hashes(xs[..n])[i] != Hashes(xs[..n])[j] {
          assert Hashes(xs)[i] != Hashes(xs)[j];
        }
      }
      SelectionDiffers(sel, xs[..n]);
      forall i | 0 <= i < |front| ensures front[i].hash != xs[n].hash {
        assert front[i] in xs[..n];
        var k :| 0 <= k < n && xs[k] == front[i];
        assert Hashes(xs)[k] != Hashes(xs)[n];
      }
    }
  }

  lemma SubsetOfSameSize<T>(a: set<T>, b: set<T>)
    requires a <= b && |a| == |b|
    ensures a == b
  {
    assert |b - a| == 0;
  }

  lemma SortedDiffer(scope: Scope, inputs: seq<Input>)
    requires scope.epochSeconds >= 1 && Problem(scope, inputs).None? && HashesBind(inputs)
    ensures AllDifferent(Hashes(Sorted(inputs)))
  {
    AdmittedAreDistinct(scope, inputs);
    SortedSorts(inputs);
    var xs := Sorted(inputs);
    forall i, j | 0 <= i < j < |xs| ensures xs[i].hash != xs[j].hash {
      assert xs[i] in multiset(inputs) && xs[j] in multiset(inputs);
      if xs[i] == xs[j] { TwicePresent(xs, i, j); }
    }
  }

  lemma TwicePresent(xs: seq<Input>, i: nat, j: nat)
    requires i < j < |xs| && xs[i] == xs[j]
    ensures multiset(xs)[xs[i]] >= 2
  {
    assert xs == xs[..j] + [xs[j]] + xs[j + 1..];
    assert xs[i] in xs[..j];
    assert xs[i] in multiset(xs[..j]);
  }

  /** A report covers its epoch: its target records are exactly the transcripts in its order, which for
      the root on chain are exactly those the chain holds. */
  lemma ReportCoversOrder(tree: Tree, scope: Scope, inputs: seq<Input>, fraction: nat)
    requires HashesBind(inputs)
    ensures Confidence(tree, scope, inputs, fraction).Ok? ==>
      Members(Hashes(TargetOf(scope, Sorted(inputs)))) == Members(scope.order) &&
      Confidence(tree, scope, inputs, fraction).value.raw == |scope.order|
  {
    if Confidence(tree, scope, inputs, fraction).Ok? { TargetIsOrder(scope, inputs); }
  }

  lemma TargetIsOrder(scope: Scope, inputs: seq<Input>)
    requires scope.epochSeconds >= 1 && Problem(scope, inputs).None? && HashesBind(inputs)
    requires Complete(scope, TargetOf(scope, Sorted(inputs)))
    ensures Members(Hashes(TargetOf(scope, Sorted(inputs)))) == Members(scope.order)
  {
    var target := TargetOf(scope, Sorted(inputs));
    SortedDiffer(scope, inputs);
    SelectionDiffers(Target(scope.device, scope.epoch), Sorted(inputs));
    CountDifferent(Hashes(target));
    CountDistinct(scope.order);
    forall hash | hash in Hashes(target) ensures hash in scope.order {
      var i :| 0 <= i < |target| && Hashes(target)[i] == hash;
      assert target[i] in target;
    }
    SubsetOfSameSize(Members(Hashes(target)), Members(scope.order));
  }
}
