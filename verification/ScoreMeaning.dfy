/** What the numbers of a confidence report mean, stated on the records themselves. */
module ScoreMeaning {
  import opened Wrappers
  import opened Intake
  import opened Score
  import Entropy
  import ObservationTree
  import Powers
  import UnionFind

  // ---------- a group counts with its weakest record ----------

  /** v is the value of some record of the group, and no record's value is smaller. */
  ghost predicate IsWeakest(scope: Scope, aspect: Aspect, xs: seq<Input>, v: int)
    requires scope.epochSeconds >= 1
  {
    && (exists x :: x in xs && ValueOf(scope, aspect, x) == v)
    && (forall x :: x in xs ==> v <= ValueOf(scope, aspect, x))
  }

  lemma {:induction false} LeastIsWeakest(scope: Scope, aspect: Aspect, xs: seq<Input>)
    requires scope.epochSeconds >= 1 && xs != []
    ensures IsWeakest(scope, aspect, xs, Least(scope, aspect, xs))
  {
    var n := |xs| - 1;
    assert xs == xs[..n] + [xs[n]];
    assert xs[n] in xs;
    if n > 0 {
      LeastIsWeakest(scope, aspect, xs[..n]);
      var x :| x in xs[..n] && ValueOf(scope, aspect, x) == Least(scope, aspect, xs[..n]);
      assert x in xs;
    }
  }

  /** m is the floored mean of the parts. */
  ghost predicate IsMean(m: int, parts: seq<int>) {
    parts != [] && m * |parts| <= Sum(parts) < (m + 1) * |parts|
  }

  lemma AverageIsMean(parts: seq<int>)
    requires parts != []
    ensures IsMean(Average(parts), parts)
  {
    var n := |parts|;
    assert Sum(parts) == Average(parts) * n + Sum(parts) % n;
  }

  /** The facet is the floored mean over the groups of what each group's weakest record is worth. */
  ghost predicate IsFacet(scope: Scope, aspect: Aspect, groups: Groups, facet: int, parts: seq<int>)
    requires scope.epochSeconds >= 1
  {
    && |parts| == |groups| && IsMean(facet, parts)
    && (forall i :: 0 <= i < |groups| ==> IsWeakest(scope, aspect, groups[i], parts[i]))
  }

  lemma FacetOfGroups(scope: Scope, aspect: Aspect, groups: Groups) returns (parts: seq<int>)
    requires scope.epochSeconds >= 1 && Filled(groups)
    ensures IsFacet(scope, aspect, groups, Weakest(scope, aspect, groups), parts)
  {
    parts := seq(|groups|, i requires 0 <= i < |groups| => Least(scope, aspect, groups[i]));
    AverageIsMean(parts);
    forall i | 0 <= i < |groups| ensures IsWeakest(scope, aspect, groups[i], parts[i]) {
      LeastIsWeakest(scope, aspect, groups[i]);
    }
  }

  /** The groups of a report: the target's records under the roots of their pseudonyms. */
  ghost function ReportGroups(scope: Scope, inputs: seq<Input>): Groups {
    var records := Sorted(inputs);
    var target, reps := TargetOf(scope, records), RepsOf(scope, records);
    GroupsOf(reps, RootsOf(reps, target), target)
  }

  lemma ReportIsOfGroups(tree: Tree, scope: Scope, inputs: seq<Input>, fraction: nat)
    ensures Confidence(tree, scope, inputs, fraction).Ok? ==>
      var report := Confidence(tree, scope, inputs, fraction).value;
      var groups := ReportGroups(scope, inputs);
      scope.epochSeconds >= 1 && Filled(groups) && report.groups == |groups| &&
      report.facets == FacetsOf(scope, Sorted(inputs), fraction) && report.score == Weighted(report.facets)
  {
    var records := Sorted(inputs);
    if Confidence(tree, scope, inputs, fraction).Ok? {
      GroupsFilled(RepsOf(scope, records), TargetOf(scope, records));
    }
  }

  /** The hardware, freshness and service facets of every report are such means. */
  lemma FacetsAreWeakestMeans(tree: Tree, scope: Scope, inputs: seq<Input>, fraction: nat)
    returns (hardware: seq<int>, freshness: seq<int>, service: seq<int>)
    ensures Confidence(tree, scope, inputs, fraction).Ok? ==>
      var facets, groups := Confidence(tree, scope, inputs, fraction).value.facets, ReportGroups(scope, inputs);
      scope.epochSeconds >= 1 && IsFacet(scope, Hardware, groups, facets.hardware, hardware) &&
      IsFacet(scope, Freshness, groups, facets.freshness, freshness) &&
      IsFacet(scope, Service, groups, facets.service, service)
  {
    hardware, freshness, service := [], [], [];
    if Confidence(tree, scope, inputs, fraction).Ok? {
      ReportIsOfGroups(tree, scope, inputs, fraction);
      var groups := ReportGroups(scope, inputs);
      hardware := FacetOfGroups(scope, Hardware, groups);
      freshness := FacetOfGroups(scope, Freshness, groups);
      service := FacetOfGroups(scope, Service, groups);
    }
  }

  // ---------- a worse record never helps ----------

  ghost predicate NoBetter(scope: Scope, aspect: Aspect, xs: seq<Input>, ys: seq<Input>)
    requires scope.epochSeconds >= 1
  {
    |xs| == |ys| && forall j :: 0 <= j < |xs| ==> ValueOf(scope, aspect, xs[j]) <= ValueOf(scope, aspect, ys[j])
  }

  lemma WeakestFollows(scope: Scope, aspect: Aspect, xs: seq<Input>, ys: seq<Input>, v: int, w: int)
    requires scope.epochSeconds >= 1 && NoBetter(scope, aspect, xs, ys)
    requires IsWeakest(scope, aspect, xs, v) && IsWeakest(scope, aspect, ys, w)
    ensures v <= w
  {
    var y :| y in ys && ValueOf(scope, aspect, y) == w;
    var j :| 0 <= j < |ys| && ys[j] == y;
    assert xs[j] in xs;
  }

  lemma {:induction false} SumFollows(a: seq<int>, b: seq<int>)
    requires |a| == |b| && forall i :: 0 <= i < |a| ==> a[i] <= b[i]
    ensures Sum(a) <= Sum(b)
  {
    if a != [] { SumFollows(a[..|a| - 1], b[..|b| - 1]); }
  }

  lemma MeanFollows(a: seq<int>, b: seq<int>, m: int, n: int)
    requires IsMean(m, a) && IsMean(n, b) && |a| == |b| && forall i :: 0 <= i < |a| ==> a[i] <= b[i]
    ensures m <= n
  {
    SumFollows(a, b);
    CancelInt(m, n + 1, |a|);
  }

  lemma MulInt(a: int, b: int, d: nat)
    requires a <= b
    ensures a * d <= b * d
  {
  }

  lemma CancelInt(a: int, b: int, d: nat)
    requires a * d < b * d
    ensures a < b
  {
    if b <= a { MulInt(b, a, d); }
  }

  /** Records with worse values, in the same groups, never raise a facet. */
  lemma WorseNeverHelps(scope: Scope, aspect: Aspect, worse: Groups, groups: Groups)
    requires scope.epochSeconds >= 1 && Filled(worse) && Filled(groups) && |worse| == |groups|
    requires forall i :: 0 <= i < |groups| ==> NoBetter(scope, aspect, worse[i], groups[i])
    ensures Weakest(scope, aspect, worse) <= Weakest(scope, aspect, groups)
  {
    var a := FacetOfGroups(scope, aspect, worse);
    var b := FacetOfGroups(scope, aspect, groups);
    forall i | 0 <= i < |groups| ensures a[i] <= b[i] {
      WeakestFollows(scope, aspect, worse[i], groups[i], a[i], b[i]);
    }
    MeanFollows(a, b, Weakest(scope, aspect, worse), Weakest(scope, aspect, groups));
  }

  // ---------- what a record is worth ----------

  /** Hardware: the score of the class, halved from the third reenrollment on, a third from the sixth, ... */
  lemma HardwareValue(scope: Scope, x: Input)
    requires scope.epochSeconds >= 1
    ensures var base := [0, 10_000, 10_000, 8_000][x.observerClass];
      var v, times := ValueOf(scope, Hardware, x), Reenrollments(x);
      (times < 3 ==> v == base) && (3 <= times < 6 ==> v == base / 2) && 0 <= v <= base
  {
    ValueInScale(scope, Hardware, x);
    QuotientBelow(ClassScore(x.observerClass), 1 + Reenrollments(x) / 3);
  }

  lemma MoreReenrollmentsWorse(scope: Scope, x: Input, y: Input)
    requires scope.epochSeconds >= 1 && x.observerClass == y.observerClass && Reenrollments(x) >= Reenrollments(y)
    ensures ValueOf(scope, Hardware, x) <= ValueOf(scope, Hardware, y)
  {
    SmallerQuotient(ClassScore(x.observerClass), 1 + Reenrollments(y) / 3, 1 + Reenrollments(x) / 3);
  }

  lemma SmallerQuotient(a: nat, d: nat, e: nat)
    requires 1 <= d <= e
    ensures a / e <= a / d
  {
    var p, q := a / d, a / e;
    assert q * e <= a && a < (p + 1) * d;
    Crossed(q, p, d, e);
  }

  lemma Crossed(q: nat, p: nat, d: nat, e: nat)
    requires d <= e && q * e < (p + 1) * d
    ensures q <= p
  {
    Powers.MulMono(d, e, q);
    assert q * d == d * q && q * e == e * q;
    Powers.CancelLess(q, p + 1, d);
  }

  /** Freshness: full when just seen, none after an epoch's length, in between a straight line rounded up. */
  lemma FreshnessValue(scope: Scope, x: Input)
    requires scope.epochSeconds >= 1 && x.time <= scope.now
    ensures var v, age, length := ValueOf(scope, Freshness, x), scope.now - x.time, scope.epochSeconds * 1000;
      (age == 0 ==> v == 10_000) && (age >= length ==> v == 0) &&
      (age < length ==> (10_000 - v) * length <= age * 10_000 < (10_000 - v + 1) * length)
  {
    var age, length := scope.now - x.time, scope.epochSeconds * 1000;
    var lost := age * 10_000 / length;
    assert lost * length <= age * 10_000 < (lost + 1) * length;
    if age >= length {
      Powers.MulMono(length, age, 10_000);
      Powers.CancelLess(10_000, lost + 1, length);
    } else {
      assert age * 10_000 < length * 10_000;
      Powers.CancelLess(lost, 10_000, length);
    }
  }

  lemma OlderIsWorse(scope: Scope, x: Input, y: Input)
    requires scope.epochSeconds >= 1 && x.time <= y.time <= scope.now
    ensures ValueOf(scope, Freshness, x) <= ValueOf(scope, Freshness, y)
  {
    Powers.DivMono((scope.now - y.time) * 10_000, (scope.now - x.time) * 10_000, scope.epochSeconds * 1000);
  }

  /** Accuracy: ten a meter off the scale, nothing from a kilometer on. */
  lemma AccuracyValue(scope: Scope, x: Input)
    requires scope.epochSeconds >= 1
    ensures ValueOf(scope, Accuracy, x) == if x.gps >= 1_000 then 0 else 10_000 - 10 * x.gps
  {
    assert x.gps * 10_000 / 1_000 == 10 * x.gps;
  }

  lemma ServiceValue(scope: Scope, x: Input)
    requires scope.epochSeconds >= 1
    ensures var v := ValueOf(scope, Service, x);
      (v == 10_000 <==> x.evidence == MatchingWifi) && (v == 0 <==> x.evidence == NoEvidence) &&
      (v == 2_500 <==> x.evidence == Unrecognized)
  {
  }

  // ---------- selections ----------

  /** A selection keeps every occurrence it selects, and no other. */
  lemma {:induction false} SelectKeeps(sel: Selection, xs: seq<Input>, x: Input)
    ensures multiset(Select(sel, xs))[x] == if Selected(sel, x) then multiset(xs)[x] else 0
  {
    if xs != [] {
      SelectKeeps(sel, xs[..|xs| - 1], x);
      assert xs == xs[..|xs| - 1] + [xs[|xs| - 1]];
    }
  }

  /** The window is the thirty days up to the evaluation. */
  lemma WindowIsThirtyDays(scope: Scope, records: seq<Input>, x: Input)
    ensures multiset(WindowOf(scope, records))[x] ==
      if x.time + 30 * 24 * 3_600_000 >= scope.now then multiset(records)[x] else 0
  {
    SelectKeeps(Recent(scope.now - WINDOW_MS), records, x);
  }

  lemma TargetIsTheEpoch(scope: Scope, records: seq<Input>, x: Input)
    ensures multiset(TargetOf(scope, records))[x] ==
      if x.device == scope.device && x.epoch == scope.epoch then multiset(records)[x] else 0
  {
    SelectKeeps(Target(scope.device, scope.epoch), records, x);
  }

  /** Pseudonyms similar to one another, over what they saw in the window. */
  ghost function Similarities(scope: Scope, records: seq<Input>): set<(nat, nat)> {
    var ps := AllPseudonyms(scope, records);
    UnionFind.SimilarPairs(ps, Slots(ps, WindowOf(scope, records)))
  }

  lemma SameRootIsConnected(scope: Scope, records: seq<Input>, p: nat, q: nat)
    requires p in RepsOf(scope, records) && q in RepsOf(scope, records)
    ensures RepsOf(scope, records)[p] == RepsOf(scope, records)[q] <==>
      UnionFind.Connected(Similarities(scope, records), p, q)
  {
    var ps := AllPseudonyms(scope, records);
    UnionFind.RepsNameComponents(ps, Slots(ps, WindowOf(scope, records)));
  }

  lemma SameGroup(reps: map<nat, nat>, roots: seq<nat>, target: seq<Input>, i: nat, x: Input, y: Input)
    requires i < |roots| && x in GroupsOf(reps, roots, target)[i] && y in target && y.pseudonym in reps
    ensures x.pseudonym in reps
    ensures y in GroupsOf(reps, roots, target)[i] <==> reps[x.pseudonym] == reps[y.pseudonym]
  {
    assert GroupsOf(reps, roots, target)[i] == Select(Class(reps, roots[i]), target);
  }

  /** Two target records share a group exactly when a chain of similar pseudonyms connects theirs. */
  lemma GroupsAreConnected(scope: Scope, inputs: seq<Input>, i: nat, x: Input, y: Input)
    requires i < |ReportGroups(scope, inputs)| && x in ReportGroups(scope, inputs)[i]
    requires y in TargetOf(scope, Sorted(inputs))
    ensures y in ReportGroups(scope, inputs)[i] <==>
      UnionFind.Connected(Similarities(scope, Sorted(inputs)), x.pseudonym, y.pseudonym)
  {
    var records := Sorted(inputs);
    var target, reps := TargetOf(scope, records), RepsOf(scope, records);
    SameGroup(reps, RootsOf(reps, target), target, i, x, y);
    SameRootIsConnected(scope, records, x.pseudonym, y.pseudonym);
  }

  /** And a class's history are the window's records of all pseudonyms connected to it. */
  lemma HistoryIsConnected(scope: Scope, records: seq<Input>, x: Input, y: Input)
    requires x in TargetOf(scope, records) && y in WindowOf(scope, records)
    ensures var reps := RepsOf(scope, records);
      y in Select(Class(reps, reps[x.pseudonym]), WindowOf(scope, records)) <==>
      UnionFind.Connected(Similarities(scope, records), x.pseudonym, y.pseudonym)
  {
    var window := WindowOf(scope, records);
    var i :| 0 <= i < |window| && window[i] == y;
    assert Pseudonyms(window)[i] == y.pseudonym;
    assert y.pseudonym in AllPseudonyms(scope, records);
    SameRootIsConnected(scope, records, x.pseudonym, y.pseudonym);
  }

  /** The similarity of two pseudonyms: they saw more than four fifths of the larger one's device epochs
      in common. */
  lemma SimilarMeans(a: set<(nat, nat)>, b: set<(nat, nat)>)
    ensures UnionFind.Similar(a, b) <==> 5 * |a * b| > 4 * |a| && 5 * |a * b| > 4 * |b|
  {
    UnionFind.SimilarIsFourFifths(a, b);
  }

  /** What a pseudonym saw: the device epochs of its records in the window. */
  lemma SlotsAreSeen(scope: Scope, records: seq<Input>, p: nat, slot: (nat, nat))
    requires p in AllPseudonyms(scope, records)
    ensures var window := WindowOf(scope, records);
      slot in Slots(AllPseudonyms(scope, records), window)[p] <==>
      exists x :: x in window && x.pseudonym == p && x.device == slot.0 && x.epoch == slot.1
  {
    var window := WindowOf(scope, records);
    if x :| x in window && x.pseudonym == p && x.device == slot.0 && x.epoch == slot.1 {
      assert x in Select(Of(p), window);
    }
  }

  // ---------- places ----------

  /** A group has a place exactly when all its records name it, each with some accuracy; its quality is
      that of its least accurate record. */
  lemma MarkMeans(scope: Scope, xs: seq<Input>, place: nat)
    requires scope.epochSeconds >= 1 && xs != []
    ensures MarkOf(scope, xs).place == Some(place) <==> forall x :: x in xs ==> x.gps > 0 && x.place == Some(place)
    ensures MarkOf(scope, xs).place == None ==> MarkOf(scope, xs).quality == 0
    ensures MarkOf(scope, xs).place == Some(place) ==> IsWeakest(scope, Accuracy, xs, MarkOf(scope, xs).quality)
  {
    LeastIsWeakest(scope, Accuracy, xs);
    assert xs[0] in xs;
  }

  /** The mark's place has the most votes. */
  ghost predicate VotesFor(marks: seq<Mark>, mark: Mark, votes: int) {
    mark.place.Some? && Votes(marks, mark.place.value) == votes
  }

  /** No place has more votes than the best, which is some group's place or nothing. */
  lemma {:induction false} BestIsBest(marks: seq<Mark>, candidates: seq<Mark>)
    ensures forall i :: 0 <= i < |candidates| && candidates[i].place.Some? ==>
      Votes(marks, candidates[i].place.value) <= Best(marks, candidates)
    ensures Best(marks, candidates) >= 0
    ensures Best(marks, candidates) == 0 || 
      (exists i :: 0 <= i < |candidates| && VotesFor(marks, candidates[i], Best(marks, candidates)))
  {
    if candidates != [] {
      var n := |candidates| - 1;
      var front := candidates[..n];
      BestIsBest(marks, front);
      forall i | 0 <= i < |candidates| && candidates[i].place.Some?
        ensures Votes(marks, candidates[i].place.value) <= Best(marks, candidates)
      {
        if i < n { assert front[i] == candidates[i]; }
      }
      if Best(marks, front) != 0 {
        var i :| 0 <= i < |front| && VotesFor(marks, front[i], Best(marks, front));
        assert candidates[i] == front[i];
      }
      assert VotesFor(marks, candidates[n], Best(marks, candidates)) || Best(marks, candidates) == Best(marks, front);
    }
  }

  function Qualities(marks: seq<Mark>): seq<int> { seq(|marks|, i requires 0 <= i < |marks| => marks[i].quality) }

  ghost predicate AllAt(marks: seq<Mark>, place: nat) {
    forall i :: 0 <= i < |marks| ==> marks[i].place == Some(place) && marks[i].quality >= 0
  }

  lemma {:induction false} VotesWhenAgreed(marks: seq<Mark>, place: nat, p: nat)
    requires AllAt(marks, place)
    ensures Votes(marks, p) == if p == place then Sum(Qualities(marks)) else 0
    ensures Sum(Qualities(marks)) >= 0
  {
    if marks != [] {
      VotesWhenAgreed(marks[..|marks| - 1], place, p);
      assert Qualities(marks)[..|marks| - 1] == Qualities(marks[..|marks| - 1]);
    }
  }

  lemma BestWhenAgreed(marks: seq<Mark>, place: nat)
    requires marks != [] && AllAt(marks, place)
    ensures Best(marks, marks) == Sum(Qualities(marks)) >= 0
  {
    VotesWhenAgreed(marks, place, place);
    BestIsBest(marks, marks);
    assert marks[0].place == Some(place);
    assert Votes(marks, marks[0].place.value) <= Best(marks, marks);
  }

  /** When all groups agree on a place, the spatial facet is the mean of their qualities - or half of it,
      when another place is claimed - but at most 5000 for fewer than three groups. */
  lemma SpatialWhenAgreed(scope: Scope, marks: seq<Mark>, place: nat)
    requires marks != [] && AllAt(marks, place)
    ensures var mean := Sum(Qualities(marks)) / |marks|;
      var expected := if scope.claimed in {None, Some(place)} then mean else mean / 2;
      Spatial(scope, marks) == if |marks| < 3 && expected > 5_000 then 5_000 else expected
  {
    var n, total := |marks|, Sum(Qualities(marks));
    BestWhenAgreed(marks, place);
    var mean: nat := total / n;
    assert mean * n <= total < (mean + 1) * n;
    MeanTwice(mean, total, n);
    HalfMean(mean, n);
    if scope.claimed.Some? { VotesWhenAgreed(marks, place, scope.claimed.value); }
  }

  lemma MeanTwice(mean: nat, total: nat, n: nat)
    requires n >= 1 && mean * n <= total < (mean + 1) * n
    ensures (mean * n + total) / (2 * n) == mean
  {
    assert mean * (2 * n) == mean * n + mean * n;
    assert (mean + 1) * (2 * n) == (mean + 1) * n + (mean + 1) * n;
    Powers.QuotientIs(mean * n + total, 2 * n, mean);
  }

  lemma HalfMean(mean: nat, n: nat)
    requires n >= 1
    ensures (mean * n) / (2 * n) == mean / 2
  {
    var h := mean / 2;
    assert mean == 2 * h || mean == 2 * h + 1;
    assert h * (2 * n) == (2 * h) * n && (h + 1) * (2 * n) == (2 * h + 2) * n;
    Powers.MulMono(2 * h, mean, n);
    assert mean * n < (2 * h + 2) * n;
    Powers.QuotientIs(mean * n, 2 * n, h);
  }

  /** How many groups have a place. */
  lemma {:induction false} LocatedCounts(marks: seq<Mark>)
    ensures Located(marks) == |set i | 0 <= i < |marks| && marks[i].place.Some?|
  {
    if marks != [] {
      var n := |marks| - 1;
      var before := set i | 0 <= i < n && marks[..n][i].place.Some?;
      var now := set i | 0 <= i < |marks| && marks[i].place.Some?;
      LocatedCounts(marks[..n]);
      assert now == if marks[n].place.Some? then before + {n} else before;
    }
  }

  // ---------- behavior ----------

  /** A class seen on one device, in one hour and at one place adds nothing. */
  lemma VarietyEnds(history: seq<Input>, fraction: nat, device: nat, hour: nat, place: nat)
    requires forall x :: x in history ==> x.device == device && x.time / 3_600_000 % 24 == hour
    requires forall x :: x in history ==> x.place in {None, Some(place)}
    ensures Variety(history, fraction) == 0
  {
    PlacesOf(history, place);
    Entropy.AllEqualScoresZero(multiset(Devices(history)), device, fraction);
    Entropy.AllEqualScoresZero(multiset(Hours(history)), hour, fraction);
    Entropy.AllEqualScoresZero(multiset(Places(history)), place, fraction);
    ThreeMean(0, 0, 0);
  }

  lemma {:induction false} PlacesOf(history: seq<Input>, place: nat)
    requires forall x :: x in history ==> x.place in {None, Some(place)}
    ensures forall p :: p in multiset(Places(history)) ==> p == place
  {
    if history != [] { PlacesOf(history[..|history| - 1], place); }
  }

  lemma ThreeMean(a: int, b: int, c: int)
    ensures Average([a, b, c]) == (a + b + c) / 3
  {
    var three, two, one := [a, b, c], [a, b], [a];
    assert three[..2] == two && two[..1] == one && one[..0] == [];
    assert Sum(one) == a && Sum(two) == a + b;
  }

  /** A class's variety is the mean of the entropies of its devices, hours and places. */
  lemma VarietyIsMean(history: seq<Input>, fraction: nat)
    ensures Variety(history, fraction) ==
      (Entropy.Score(multiset(Devices(history)), fraction) + Entropy.Score(multiset(Hours(history)), fraction) +
       Entropy.Score(multiset(Places(history)), fraction)) / 3
  {
    ThreeMean(Entropy.Score(multiset(Devices(history)), fraction), Entropy.Score(multiset(Hours(history)), fraction),
              Entropy.Score(multiset(Places(history)), fraction));
  }

  /** Hours count from midnight to 23. */
  lemma HourMeans(xs: seq<Input>, i: nat)
    requires i < |xs|
    ensures var hour := Hours(xs)[i];
      hour < 24 && xs[i].time / 3_600_000 == xs[i].time / 86_400_000 * 24 + hour
  {
    var t := xs[i].time;
    assert t / 3_600_000 / 24 == t / 86_400_000;
  }

  lemma {:induction false} PlacesCount(xs: seq<Input>, place: nat)
    ensures multiset(Places(xs))[place] == |At(xs, place)|
  {
    if xs != [] {
      var n := |xs| - 1;
      PlacesCount(xs[..n], place);
      PlaceNext(xs, place);
      AtNext(xs, place);
    }
  }

  /** Where the place is named. */
  ghost function At(xs: seq<Input>, place: nat): set<int> { set i | 0 <= i < |xs| && xs[i].place == Some(place) }

  lemma AtNext(xs: seq<Input>, place: nat)
    requires xs != []
    ensures |At(xs, place)| == |At(xs[..|xs| - 1], place)| + if xs[|xs| - 1].place == Some(place) then 1 else 0
  {
    var n := |xs| - 1;
    assert At(xs, place) == if xs[n].place == Some(place) then At(xs[..n], place) + {n} else At(xs[..n], place);
  }

  lemma PlaceNext(xs: seq<Input>, place: nat)
    requires xs != []
    ensures multiset(Places(xs))[place] ==
      multiset(Places(xs[..|xs| - 1]))[place] + if xs[|xs| - 1].place == Some(place) then 1 else 0
  {
  }

  /** What the class of a group did in the window: the records of all pseudonyms connected to it. */
  ghost predicate IsHistory(scope: Scope, records: seq<Input>, group: seq<Input>, history: seq<Input>) {
    forall x, y :: x in group ==> HistoryHas(scope, records, x, history, y)
  }

  ghost predicate HistoryHas(scope: Scope, records: seq<Input>, x: Input, history: seq<Input>, y: Input) {
    && (y in history <==> y in WindowOf(scope, records) &&
                          UnionFind.Connected(Similarities(scope, records), x.pseudonym, y.pseudonym))
    && (y in history ==> multiset(history)[y] == multiset(records)[y])
  }

  lemma HistoryOfRecord(scope: Scope, records: seq<Input>, x: Input, y: Input)
    requires x in TargetOf(scope, records)
    ensures var reps := RepsOf(scope, records);
      HistoryHas(scope, records, x, Select(Class(reps, reps[x.pseudonym]), WindowOf(scope, records)), y)
  {
    var window, reps := WindowOf(scope, records), RepsOf(scope, records);
    if y in window { HistoryIsConnected(scope, records, x, y); }
    SelectKeeps(Class(reps, reps[x.pseudonym]), window, y);
    WindowIsThirtyDays(scope, records, y);
  }

  lemma RootOfGroup(reps: map<nat, nat>, roots: seq<nat>, target: seq<Input>, i: nat, x: Input)
    requires i < |roots| && x in GroupsOf(reps, roots, target)[i]
    ensures x in target && x.pseudonym in reps && reps[x.pseudonym] == roots[i]
  {
    assert GroupsOf(reps, roots, target)[i] == Select(Class(reps, roots[i]), target);
  }

  lemma HistoryOfGroup(scope: Scope, records: seq<Input>, i: nat)
    requires i < |RootsOf(RepsOf(scope, records), TargetOf(scope, records))|
    ensures var reps, target := RepsOf(scope, records), TargetOf(scope, records);
      var roots := RootsOf(reps, target);
      IsHistory(scope, records, GroupsOf(reps, roots, target)[i],
                Select(Class(reps, roots[i]), WindowOf(scope, records)))
  {
    var reps, target, window := RepsOf(scope, records), TargetOf(scope, records), WindowOf(scope, records);
    var roots := RootsOf(reps, target);
    forall x, y | x in GroupsOf(reps, roots, target)[i]
      ensures HistoryHas(scope, records, x, Select(Class(reps, roots[i]), window), y)
    {
      RootOfGroup(reps, roots, target, i, x);
      HistoryOfRecord(scope, records, x, y);
    }
  }

  ghost function HistoriesOf(scope: Scope, records: seq<Input>): Groups {
    var reps, window := RepsOf(scope, records), WindowOf(scope, records);
    var roots := RootsOf(reps, TargetOf(scope, records));
    seq(|roots|, i requires 0 <= i < |roots| => Select(Class(reps, roots[i]), window))
  }

  ghost function VarietiesOf(scope: Scope, records: seq<Input>, fraction: nat): seq<int> {
    var reps := RepsOf(scope, records);
    Varieties(reps, RootsOf(reps, TargetOf(scope, records)), WindowOf(scope, records), fraction)
  }

  lemma BehaviorOf(scope: Scope, records: seq<Input>, fraction: nat)
    requires scope.epochSeconds >= 1 && TargetOf(scope, records) != []
    ensures IsMean(FacetsOf(scope, records, fraction).behavior, VarietiesOf(scope, records, fraction))
  {
    GroupsFilled(RepsOf(scope, records), TargetOf(scope, records));
    AverageIsMean(VarietiesOf(scope, records, fraction));
  }

  lemma VarietyOfHistory(scope: Scope, records: seq<Input>, fraction: nat)
    ensures var parts, histories := VarietiesOf(scope, records, fraction), HistoriesOf(scope, records);
      |parts| == |histories| && forall i :: 0 <= i < |parts| ==> parts[i] == Variety(histories[i], fraction)
  {
  }

  /** The behavior facet is the floored mean of the varieties of the groups' classes. */
  lemma BehaviorIsMean(tree: Tree, scope: Scope, inputs: seq<Input>, fraction: nat)
    returns (histories: Groups, parts: seq<int>)
    ensures Confidence(tree, scope, inputs, fraction).Ok? ==>
      var report, groups := Confidence(tree, scope, inputs, fraction).value, ReportGroups(scope, inputs);
      |histories| == |parts| == |groups| && IsMean(report.facets.behavior, parts) &&
      forall i :: 0 <= i < |groups| ==>
        IsHistory(scope, Sorted(inputs), groups[i], histories[i]) && parts[i] == Variety(histories[i], fraction)
  {
    var records := Sorted(inputs);
    histories, parts := HistoriesOf(scope, records), VarietiesOf(scope, records, fraction);
    if Confidence(tree, scope, inputs, fraction).Ok? {
      ReportIs(tree, scope, inputs, fraction);
      BehaviorOf(scope, records, fraction);
      VarietyOfHistory(scope, records, fraction);
      forall i | 0 <= i < |histories| ensures IsHistory(scope, records, ReportGroups(scope, inputs)[i], histories[i]) {
        HistoryOfGroup(scope, records, i);
      }
    }
  }

  lemma ReportIs(tree: Tree, scope: Scope, inputs: seq<Input>, fraction: nat)
    ensures Confidence(tree, scope, inputs, fraction).Ok? ==>
      var records, groups := Sorted(inputs), ReportGroups(scope, inputs);
      scope.epochSeconds >= 1 && TargetOf(scope, records) != [] && Filled(groups) &&
      Confidence(tree, scope, inputs, fraction).value ==
        ReportOf(scope, records, FacetsOf(scope, records, fraction), groups)
  {
    if Confidence(tree, scope, inputs, fraction).Ok? {
      GroupsFilled(RepsOf(scope, Sorted(inputs)), TargetOf(scope, Sorted(inputs)));
    }
  }

  lemma OtherFacets(scope: Scope, inputs: seq<Input>, fraction: nat)
    requires scope.epochSeconds >= 1 && TargetOf(scope, Sorted(inputs)) != [] && Filled(ReportGroups(scope, inputs))
    ensures var facets, groups := FacetsOf(scope, Sorted(inputs), fraction), ReportGroups(scope, inputs);
      facets.diversity == Witness(|groups|) && facets.spatial == Spatial(scope, Marks(scope, groups))
  {
  }

  /** Two thirds of 1000 for each group, up to fifteen groups. */
  lemma WitnessMeans(groups: nat)
    ensures groups >= 15 ==> Witness(groups) == 10_000
    ensures groups <= 15 ==> 3 * Witness(groups) <= 2_000 * groups < 3 * (Witness(groups) + 1)
  {
  }

  ghost predicate RiskKnown(scope: Scope, inputs: seq<Input>) {
    forall x :: x in multiset(inputs) && x.device == scope.device && x.epoch == scope.epoch ==> x.risk != Unknown
  }

  lemma TargetRisk(scope: Scope, inputs: seq<Input>)
    ensures RiskKnown(scope, inputs) <==> forall x :: x in TargetOf(scope, Sorted(inputs)) ==> !x.risk.Unknown?
  {
    SortedSorts(inputs);
    assert forall x :: x in Sorted(inputs) <==> x in multiset(Sorted(inputs));
  }

  /** The rest of a report. */
  lemma ReportMeans(tree: Tree, scope: Scope, inputs: seq<Input>, fraction: nat)
    ensures Confidence(tree, scope, inputs, fraction).Ok? ==>
      var report, groups := Confidence(tree, scope, inputs, fraction).value, ReportGroups(scope, inputs);
      scope.epochSeconds >= 1 && Filled(groups) &&
      multiset(report.inputs) == multiset(inputs) && Ascending(report.inputs) &&
      report.facets.diversity == Witness(|groups|) && report.facets.spatial == Spatial(scope, Marks(scope, groups)) &&
      report.located == Located(Marks(scope, groups)) && report.history == |WindowOf(scope, report.inputs)| &&
      report.riskAvailable == RiskKnown(scope, inputs)
  {
    if Confidence(tree, scope, inputs, fraction).Ok? {
      ReportIs(tree, scope, inputs, fraction);
      OtherFacets(scope, inputs, fraction);
      TargetRisk(scope, inputs);
      SortedSorts(inputs);
    }
  }

  /** The scope is looked at first, then the inputs. */
  lemma ScopeComesFirst(tree: Tree, scope: Scope, inputs: seq<Input>, fraction: nat)
    ensures var sound := scope.wellFormed && scope.epochSeconds > 0 && 1 <= |inputs| <= 10_000 &&
        1000 * (scope.epoch * scope.epochSeconds) <= scope.now;
      (!sound ==> Confidence(tree, scope, inputs, fraction) == Err(InvalidScope)) &&
      (sound && Problem(scope, inputs).Some? ==>
        Confidence(tree, scope, inputs, fraction) == Err(Problem(scope, inputs).value))
  {
    assert scope.epoch * scope.epochSeconds * 1000 == 1000 * (scope.epoch * scope.epochSeconds);
  }

  // ---------- the score ----------

  /** Each facet moves the score by its own share, and the shares add up to the whole. */
  lemma ScoreShares(v: int)
    requires InScale(v)
    ensures Weighted(Facets(v, v, v, v, v, v)) == v
    ensures Weighted(Facets(10_000, 0, 0, 0, 0, 0)) == 2_500 && Weighted(Facets(0, 10_000, 0, 0, 0, 0)) == 1_000
    ensures Weighted(Facets(0, 0, 10_000, 0, 0, 0)) == 3_000 && Weighted(Facets(0, 0, 0, 10_000, 0, 0)) == 1_500
    ensures Weighted(Facets(0, 0, 0, 0, 10_000, 0)) == 1_500 && Weighted(Facets(0, 0, 0, 0, 0, 10_000)) == 500
  {
  }

  /** No facet can fall and the score rise. */
  lemma ScoreFollows(f: Facets, g: Facets)
    requires f.hardware <= g.hardware && f.freshness <= g.freshness && f.diversity <= g.diversity
    requires f.spatial <= g.spatial && f.behavior <= g.behavior && f.service <= g.service
    ensures Weighted(f) <= Weighted(g)
  {
  }

  // ---------- when there is a report ----------

  /** Beyond the intake: the target records are exactly the transcripts of the order, the order refolds to
      the root, and no more than 512 pseudonyms are involved - checked in this order. */
  lemma ReportIsExact(tree: Tree, scope: Scope, inputs: seq<Input>, fraction: nat)
    requires ScopeOk(scope, |inputs|) && Problem(scope, inputs).None? && HashesBind(inputs)
    ensures var records := Sorted(inputs);
      var hashes := Members(Hashes(TargetOf(scope, records)));
      var involved := set x | x in records && (x.time + 30 * 24 * 3_600_000 >= scope.now ||
        (x.device == scope.device && x.epoch == scope.epoch)) :: x.pseudonym;
      var checks := [(hashes != {} && hashes == Members(scope.order) && |hashes| == |scope.order|, IncompleteTarget),
                     (ObservationTree.Refolded(tree, scope.order).root == scope.root, TreeMismatch),
                     (|involved| <= 512, TooManyPseudonyms)];
      var r := Confidence(tree, scope, inputs, fraction);
      (r.Ok? <==> checks[0].0 && checks[1].0 && checks[2].0) &&
      (r.Err? ==> r.error == FirstFailing(checks, InvalidScope))
  {
    var records := Sorted(inputs);
    var target := TargetOf(scope, records);
    SortedDiffer(scope, inputs);
    SelectionDiffers(Target(scope.device, scope.epoch), records);
    CountDifferent(Hashes(target));
    CompleteMeans(scope, target);
    InvolvedAre(scope, records);
    CountDistinct(Pseudonyms(WindowOf(scope, records)) + Pseudonyms(target));
    var involved := Members(Pseudonyms(WindowOf(scope, records)) + Pseudonyms(target));
    var hashes := Members(Hashes(target));
    FirstFailingIs([(hashes != {} && hashes == Members(scope.order) && |hashes| == |scope.order|, IncompleteTarget),
                    (ObservationTree.Refolded(tree, scope.order).root == scope.root, TreeMismatch),
                    (|involved| <= 512, TooManyPseudonyms)], InvalidScope);
  }

  lemma CompleteMeans(scope: Scope, target: seq<Input>)
    requires |Members(Hashes(target))| == |target|
    ensures var hashes := Members(Hashes(target));
      Complete(scope, target) <==> hashes != {} && hashes == Members(scope.order) && |hashes| == |scope.order|
  {
    var hashes := Members(Hashes(target));
    CountDistinct(scope.order);
    if Complete(scope, target) {
      forall hash | hash in hashes ensures hash in scope.order {
        var i :| 0 <= i < |target| && Hashes(target)[i] == hash;
        assert target[i] in target;
      }
      SubsetOfSameSize(hashes, Members(scope.order));
    }
    if hashes != {} && hashes == Members(scope.order) && |hashes| == |scope.order| {
      forall x | x in target ensures x.hash in scope.order {
        var i :| 0 <= i < |target| && target[i] == x;
        assert Hashes(target)[i] in hashes;
      }
    }
  }

  lemma InvolvedAre(scope: Scope, records: seq<Input>)
    ensures Members(Pseudonyms(WindowOf(scope, records)) + Pseudonyms(TargetOf(scope, records))) ==
      set x | x in records && (x.time + 30 * 24 * 3_600_000 >= scope.now ||
        (x.device == scope.device && x.epoch == scope.epoch)) :: x.pseudonym
  {
    var window, target := WindowOf(scope, records), TargetOf(scope, records);
    forall x | x in window ensures x.pseudonym in Pseudonyms(window) {
      var i :| 0 <= i < |window| && window[i] == x;
      assert Pseudonyms(window)[i] == x.pseudonym;
    }
    forall x | x in target ensures x.pseudonym in Pseudonyms(target) {
      var i :| 0 <= i < |target| && target[i] == x;
      assert Pseudonyms(target)[i] == x.pseudonym;
    }
  }
}
