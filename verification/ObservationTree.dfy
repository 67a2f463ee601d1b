/** The per-epoch observation tree kept on chain (and twinned in the TypeScript SDK): sixteen
    frontier digests instead of the leaves, with stale values in the levels not in use; and the
    confidence commitment published against it by compare-and-swap. */
module ObservationTree {
  import opened Merkle
  import opened Powers
  import opened Wrappers

  const MAX_COUNT: nat := 65535

  /** Domain-separated digests, the tree depth, and the all-zero value of an unset field. */
  datatype Digests<!T, !D> = Digests(leaf: T -> D, tree: Hasher<D>, zero: D, depth: nat)

  /** The side condition on the depth: every count the account can reach has its own leaf. */
  predicate Fits<T, D>(h: Digests<T, D>) {
    MAX_COUNT < Pow2(h.depth)
  }

  lemma SixteenLevelsFit<T, D>(h: Digests<T, D>)
    requires h.depth == 16
    ensures Fits(h)
  {
    Pow2Plus4(0); Pow2Plus4(4); Pow2Plus4(8); Pow2Plus4(12);
  }

  datatype Epoch<D> = Epoch(count: nat, frontier: seq<D>, root: D, confidence: D)

  function Untouched<T, D>(h: Digests<T, D>): Epoch<D> {
    Epoch(0, seq(h.depth, _ => h.zero), h.zero, h.zero)
  }

  // ---------- append, as a function of the account ----------

  /** The climb from one level to the root: the new frontier and the root digest. */
  function Climb<D>(h: Hasher<D>, frontier: seq<D>, count: nat, node: D, zero: D, level: nat): (r: (seq<D>, D))
    requires level <= |frontier|
    ensures |r.0| == |frontier|
    decreases |frontier| - level
  {
    if level == |frontier| then (frontier, node)
    else if Shift(count, level) % 2 == 0 then
      Climb(h, frontier[level := node], count, h.node(node, zero), h.node(zero, zero), level + 1)
    else
      Climb(h, frontier, count, h.node(frontier[level], node), h.node(zero, zero), level + 1)
  }

  function Appended<T, D>(h: Digests<T, D>, e: Epoch<D>, transcript: T): (r: Epoch<D>)
    ensures |r.frontier| == |e.frontier|
  {
    var up := Climb(h.tree, e.frontier, e.count, h.leaf(transcript), h.tree.empty, 0);
    Epoch(e.count + 1, up.0, up.1, h.zero)
  }

  // ---------- publishing a confidence commitment ----------

  datatype PublishArgs<D> = PublishArgs(epoch: nat, root: D, observerCount: nat, previous: D,
                                        commitment: D, policyVersion: nat, evaluatedAtMs: nat)

  datatype Outcome = Published | InvalidPolicy | StaleConfidence | InvalidAuthorization

  /** args was published against this very state of the account. */
  ghost predicate Current<D>(e: Epoch<D>, args: PublishArgs<D>) {
    args.commitment == e.confidence && args.root == e.root && args.observerCount == e.count
  }

  /** The account has moved on since the publication was prepared. */
  ghost predicate Stale<D>(e: Epoch<D>, args: PublishArgs<D>) {
    e.count == 0 || e.count != args.observerCount || e.root != args.root || e.confidence != args.previous
  }

  predicate MayPublish<T, D(==)>(h: Digests<T, D>, e: Epoch<D>, args: PublishArgs<D>,
                                 policyVersion: nat, epochSeconds: nat, now: int)
  {
    && args.policyVersion == policyVersion && args.commitment != h.zero
    && args.observerCount > 0 && e.count == args.observerCount && e.root == args.root
    && e.confidence == args.previous
    && now >= 0 && args.evaluatedAtMs / 1000 >= args.epoch * epochSeconds
    && args.evaluatedAtMs / 1000 <= now + 600
  }

  // ---------- the account ----------

  class DeviceEpoch<T, D(==)> {
    const h: Digests<T, D>
    const frontier: array<D>
    var independentObservers: nat
    var observationRoot: D
    var confidenceCommitment: D

    ghost predicate Valid() reads this { frontier.Length == h.depth }

    ghost function Abs(): Epoch<D>
      reads this, frontier
    { Epoch(independentObservers, frontier[..], observationRoot, confidenceCommitment) }

    constructor (h: Digests<T, D>)
      ensures Valid() && this.h == h && fresh(frontier) && Abs() == Untouched(h)
    {
      this.h := h;
      frontier := new D[h.depth](_ => h.zero);
      independentObservers, observationRoot, confidenceCommitment := 0, h.zero, h.zero;
    }

    method AppendObservation(transcript: T) returns (ok: bool)
      requires Valid()
      modifies this, frontier
      ensures Valid() && ok == (old(independentObservers) < 65_535)
      ensures Abs() == if ok then Appended(h, old(Abs()), transcript) else old(Abs())
    {
      var count := independentObservers;
      if count >= MAX_COUNT { return false; }
      var node := h.leaf(transcript);
      var zero := h.tree.empty;
      ghost var before := frontier[..];
      for level := 0 to h.depth
        invariant Climb(h.tree, frontier[..], count, node, zero, level)
               == Climb(h.tree, before, count, h.leaf(transcript), h.tree.empty, 0)
      {
        if Shift(count, level) % 2 == 0 {
          frontier[level] := node;
          node := h.tree.node(node, zero);
        } else {
          node := h.tree.node(frontier[level], node);
        }
        zero := h.tree.node(zero, zero);
      }
      observationRoot := node;
      independentObservers := count + 1;
      confidenceCommitment := h.zero;
      return true;
    }

    /** signed: the verifier's Ed25519 authorization of exactly these arguments was found. Only a
        publication for the account's root and count, made in knowledge of what it replaces, gets in. */
    method Publish(args: PublishArgs<D>, policyVersion: nat, epochSeconds: nat, now: int, signed: bool)
      returns (outcome: Outcome)
      requires Valid()
      modifies this`confidenceCommitment
      ensures Valid()
      ensures outcome == Published <==> MayPublish(h, old(Abs()), args, policyVersion, epochSeconds, now) && signed
      ensures outcome == Published ==>
        Current(Abs(), args) && Abs().confidence != h.zero && old(confidenceCommitment) == args.previous
      ensures outcome != Published ==> confidenceCommitment == old(confidenceCommitment)
      ensures outcome == StaleConfidence <==>
        args.policyVersion == policyVersion && args.commitment != h.zero && Stale(old(Abs()), args)
      ensures outcome == InvalidAuthorization <==>
        MayPublish(h, old(Abs()), args, policyVersion, epochSeconds, now) && !signed
    {
      if args.policyVersion != policyVersion || args.commitment == h.zero { return InvalidPolicy; }
      if args.observerCount == 0 || independentObservers != args.observerCount || observationRoot != args.root {
        return StaleConfidence;
      }
      if confidenceCommitment != args.previous { return StaleConfidence; }
      var evaluated := args.evaluatedAtMs / 1000;
      var epochStart := args.epoch * epochSeconds;
      if now < 0 || evaluated < epochStart || evaluated > now + 600 { return InvalidPolicy; }
      if !signed { return InvalidAuthorization; }
      confidenceCommitment := args.commitment;
      return Published;
    }
  }

  /** The checks of a publication in their order: the policy, the state it was made against, the time of
      the evaluation (in the epoch or later, at most ten minutes ahead), the signature. */
  function PublicationChecks<T, D(==)>(h: Digests<T, D>, e: Epoch<D>, args: PublishArgs<D>, policyVersion: nat,
                                       epochSeconds: nat, now: int, signed: bool): seq<(bool, Outcome)>
  {
    [(args.policyVersion == policyVersion, InvalidPolicy), (args.commitment != h.zero, InvalidPolicy),
     (args.observerCount > 0, StaleConfidence), (e.count == args.observerCount, StaleConfidence),
     (e.root == args.root, StaleConfidence), (e.confidence == args.previous, StaleConfidence),
     (now >= 0, InvalidPolicy), (1000 * (args.epoch * epochSeconds) <= args.evaluatedAtMs, InvalidPolicy),
     (args.evaluatedAtMs < 1000 * (now + 601), InvalidPolicy), (signed, InvalidAuthorization)]
  }

  /** The outcome that Publish promises is the answer of the first of these checks that fails. */
  lemma PublicationIsExact<T, D>(h: Digests<T, D>, e: Epoch<D>, args: PublishArgs<D>, policyVersion: nat,
                                 epochSeconds: nat, now: int, signed: bool, outcome: Outcome)
    requires outcome == Published <==> MayPublish(h, e, args, policyVersion, epochSeconds, now) && signed
    requires outcome == StaleConfidence <==>
      args.policyVersion == policyVersion && args.commitment != h.zero && Stale(e, args)
    requires outcome == InvalidAuthorization <==> MayPublish(h, e, args, policyVersion, epochSeconds, now) && !signed
    ensures outcome == FirstFailing(PublicationChecks(h, e, args, policyVersion, epochSeconds, now, signed), Published)
  {
    var start := args.epoch * epochSeconds;
    assert args.evaluatedAtMs / 1000 >= start <==> 1000 * start <= args.evaluatedAtMs;
    assert args.evaluatedAtMs / 1000 <= now + 600 <==> args.evaluatedAtMs < 1000 * (now + 601);
    FirstOfTen(PublicationChecks(h, e, args, policyVersion, epochSeconds, now, signed), Published);
  }

  // ---------- the SDK's twin ----------

  method AppendTree<T, D>(h: Digests<T, D>, frontier: seq<D>, count: nat, transcript: T)
    returns (r: Option<(seq<D>, D)>)
    ensures r.None? <==> |frontier| != h.depth || count >= MAX_COUNT
    ensures r.Some? ==> r.value == Climb(h.tree, frontier, count, h.leaf(transcript), h.tree.empty, 0)
  {
    if |frontier| != h.depth || count >= MAX_COUNT { return None; }
    var next := frontier;
    var node, zero := h.leaf(transcript), h.tree.empty;
    for level := 0 to h.depth
      invariant |next| == h.depth
      invariant Climb(h.tree, next, count, node, zero, level)
             == Climb(h.tree, frontier, count, h.leaf(transcript), h.tree.empty, 0)
    {
      if Shift(count, level) % 2 == 0 {
        next := next[level := node];
        node := h.tree.node(node, zero);
      } else {
        node := h.tree.node(next[level], node);
      }
      zero := h.tree.node(zero, zero);
    }
    return Some((next, node));
  }

  /** The account after the given transcripts alone. */
  function Refolded<T, D>(h: Digests<T, D>, order: seq<T>): (e: Epoch<D>)
    ensures |e.frontier| == h.depth && e.count == |order|
  {
    if order == [] then Untouched(h) else Appended(h, Refolded(h, order[..|order| - 1]), order[|order| - 1])
  }

  /** The confidence engine's recomputation of a root from the transcripts in order. */
  method Refold<T, D>(h: Digests<T, D>, order: seq<T>) returns (root: D)
    requires |order| <= MAX_COUNT
    ensures root == Refolded(h, order).root
  {
    var frontier := seq(h.depth, _ => h.zero);
    root := h.zero;
    for i := 0 to |order|
      invariant frontier == Refolded(h, order[..i]).frontier && root == Refolded(h, order[..i]).root
    {
      var next := AppendTree(h, frontier, i, order[i]);
      assert order[..i + 1][..i] == order[..i];
      frontier, root := next.value.0, next.value.1;
    }
    assert order[..|order|] == order;
  }

  // ---------- the frontier represents the leaves ----------

  function Leaves<T, D>(h: Digests<T, D>, ts: seq<T>): seq<D> {
    seq(|ts|, i requires 0 <= i < |ts| => h.leaf(ts[i]))
  }

  /** Only levels whose count bit is set say anything: they hold the last complete subtree. */
  ghost predicate Frontier<D>(h: Hasher<D>, frontier: seq<D>, leaves: seq<D>) {
    && (forall l :: 0 <= l < |frontier| && Shift(|leaves|, l) % 2 == 1 ==>
         frontier[l] == NodeAt(h, leaves, l, Shift(|leaves|, l) - 1))
  }

  /** Levels below `level` already speak for the longer list, levels from it on for the old one. */
  ghost predicate HalfWay<D>(h: Hasher<D>, frontier: seq<D>, leaves: seq<D>, leaf: D, level: nat) {
    && (forall l :: 0 <= l < level && l < |frontier| && Shift(|leaves| + 1, l) % 2 == 1 ==>
         frontier[l] == NodeAt(h, leaves + [leaf], l, Shift(|leaves| + 1, l) - 1))
    && (forall l :: level <= l < |frontier| && Shift(|leaves|, l) % 2 == 1 ==>
         frontier[l] == NodeAt(h, leaves, l, Shift(|leaves|, l) - 1))
  }

  lemma HalfWayStep<D>(h: Hasher<D>, frontier: seq<D>, leaves: seq<D>, leaf: D, level: nat)
    requires HalfWay(h, frontier, leaves, leaf, level) && level < |frontier|
    ensures var even := Shift(|leaves|, level) % 2 == 0;
      HalfWay(h, if even then frontier[level := NodeAt(h, leaves + [leaf], level, Shift(|leaves|, level))]
                 else frontier, leaves, leaf, level + 1)
  {
    ShiftSucc(|leaves|, level);
    var c := Shift(|leaves|, level);
    if c % 2 == 1 { AppendElsewhere(h, leaves, leaf, level, c - 1); }
  }

  lemma {:induction false} ClimbIsTree<D>(h: Hasher<D>, frontier: seq<D>, leaves: seq<D>, leaf: D, level: nat)
    requires level <= |frontier| && HalfWay(h, frontier, leaves, leaf, level)
    ensures var up := Climb(h, frontier, |leaves|, NodeAt(h, leaves + [leaf], level, Shift(|leaves|, level)),
                            EmptyAt(h, level), level);
      up.1 == NodeAt(h, leaves + [leaf], |frontier|, Shift(|leaves|, |frontier|)) &&
      HalfWay(h, up.0, leaves, leaf, |frontier|)
    decreases |frontier| - level
  {
    if level < |frontier| {
      var longer, c := leaves + [leaf], Shift(|leaves|, level);
      HalfWayStep(h, frontier, leaves, leaf, level);
      if c % 2 == 0 {
        NewestIsLeft(h, longer, level, |leaves|);
        ClimbIsTree(h, frontier[level := NodeAt(h, longer, level, c)], leaves, leaf, level + 1);
      } else {
        AppendElsewhere(h, leaves, leaf, level, c - 1);
        NewestIsRight(h, longer, level, |leaves|);
        ClimbIsTree(h, frontier, leaves, leaf, level + 1);
      }
    }
  }

  /** The node above the last leaf n is a left child with nothing to its right. */
  lemma NewestIsLeft<D>(h: Hasher<D>, leaves: seq<D>, level: nat, n: nat)
    requires |leaves| == n + 1 && Shift(n, level) % 2 == 0
    ensures NodeAt(h, leaves, level + 1, Shift(n, level + 1)) ==
      h.node(NodeAt(h, leaves, level, Shift(n, level)), EmptyAt(h, level))
  {
    assert Shift(n, level + 1) == Shift(n, level) / 2;
    EmptyBeyond(h, leaves, n, level, Shift(n, level) + 1);
  }

  /** Or it is a right child, next to the last complete subtree. */
  lemma NewestIsRight<D>(h: Hasher<D>, leaves: seq<D>, level: nat, n: nat)
    requires Shift(n, level) % 2 == 1
    ensures NodeAt(h, leaves, level + 1, Shift(n, level + 1)) ==
      h.node(NodeAt(h, leaves, level, Shift(n, level) - 1), NodeAt(h, leaves, level, Shift(n, level)))
  {
    assert Shift(n, level + 1) == Shift(n, level) / 2;
    assert 2 * (Shift(n, level) / 2) == Shift(n, level) - 1;
  }

  // ---------- runs ----------

  datatype Input<T, D> =
    | Observe(transcript: T)
    | Publish(args: PublishArgs<D>, policyVersion: nat, epochSeconds: nat, now: int, signed: bool)

  /** The account together with the transcripts appended and the publications accepted so far. */
  datatype Run<T, D> = Run(epoch: Epoch<D>, transcripts: seq<T>, accepted: seq<PublishArgs<D>>)

  function Step<T, D(==)>(h: Digests<T, D>, r: Run<T, D>, input: Input<T, D>): (r': Run<T, D>)
    requires |r.epoch.frontier| == h.depth
    ensures |r'.epoch.frontier| == h.depth
  {
    match input
    case Observe(t) =>
      if r.epoch.count < MAX_COUNT then
        r.(epoch := Appended(h, r.epoch, t), transcripts := r.transcripts + [t])
      else r
    case Publish(args, policyVersion, epochSeconds, now, signed) =>
      if MayPublish(h, r.epoch, args, policyVersion, epochSeconds, now) && signed then
        r.(epoch := r.epoch.(confidence := args.commitment), accepted := r.accepted + [args])
      else r
  }

  function RunOf<T, D(==)>(h: Digests<T, D>, inputs: seq<Input<T, D>>): (r: Run<T, D>)
    ensures |r.epoch.frontier| == h.depth
  {
    if inputs == [] then Run(Untouched(h), [], [])
    else Step(h, RunOf(h, inputs[..|inputs| - 1]), inputs[|inputs| - 1])
  }

  ghost predicate Inv<T, D>(h: Digests<T, D>, r: Run<T, D>) {
    && r.epoch.count == |r.transcripts| <= MAX_COUNT
    && Frontier(h.tree, r.epoch.frontier, Leaves(h, r.transcripts))
    && (r.transcripts != [] ==> r.epoch.root == NodeAt(h.tree, Leaves(h, r.transcripts), h.depth, 0))
    && (r.epoch.confidence != h.zero ==> exists args :: args in r.accepted && Current(r.epoch, args))
    && (r.transcripts == [] ==> r.epoch.confidence == h.zero)
  }

  lemma AppendKeepsTree<T, D>(h: Digests<T, D>, e: Epoch<D>, ts: seq<T>, t: T)
    requires Fits(h) && |e.frontier| == h.depth
    requires e.count == |ts| < MAX_COUNT && Frontier(h.tree, e.frontier, Leaves(h, ts))
    ensures var e' := Appended(h, e, t);
      Frontier(h.tree, e'.frontier, Leaves(h, ts + [t])) &&
      e'.root == NodeAt(h.tree, Leaves(h, ts + [t]), h.depth, 0)
  {
    assert Leaves(h, ts + [t]) == Leaves(h, ts) + [h.leaf(t)];
    assert Shift(|ts|, 0) == |ts|;
    ClimbIsTree(h.tree, e.frontier, Leaves(h, ts), h.leaf(t), 0);
    ShiftZero(|ts|, h.depth);
  }

  lemma StepKeepsInv<T, D>(h: Digests<T, D>, r: Run<T, D>, input: Input<T, D>)
    requires Fits(h) && Inv(h, r) && |r.epoch.frontier| == h.depth
    ensures Inv(h, Step(h, r, input))
  {
    match input
    case Observe(t) =>
      if r.epoch.count < MAX_COUNT { AppendKeepsTree(h, r.epoch, r.transcripts, t); }
    case Publish(args, _, _, _, _) =>
      var r' := Step(h, r, input);
      if r' != r {
        assert args in r'.accepted && Current(r'.epoch, args);
      }
  }

  lemma {:induction false} RunKeepsInv<T, D>(h: Digests<T, D>, inputs: seq<Input<T, D>>)
    requires Fits(h)
    ensures Inv(h, RunOf(h, inputs))
  {
    if inputs != [] {
      RunKeepsInv(h, inputs[..|inputs| - 1]);
      StepKeepsInv(h, RunOf(h, inputs[..|inputs| - 1]), inputs[|inputs| - 1]);
    } else {
      forall l: nat ensures Shift(0, l) == 0 { ShiftZero(0, l); }
    }
  }

  // ---------- main results ----------

  /** After any run the root is the root of the full tree over the transcripts appended,
      padded with the empty leaf, although unused frontier levels hold stale nodes. */
  lemma RootIsPaddedTree<T, D>(h: Digests<T, D>, inputs: seq<Input<T, D>>)
    requires Fits(h)
    ensures var r := RunOf(h, inputs);
      r.epoch.count == |r.transcripts| <= MAX_COUNT &&
      (r.transcripts != [] ==> r.epoch.root == NodeAt(h.tree, Leaves(h, r.transcripts), h.depth, 0))
  {
    RunKeepsInv(h, inputs);
  }

  ghost predicate Separated<T(!new), D(!new)>(h: Digests<T, D>) {
    && NodeInjective(h.tree)
    && (forall s, t :: h.leaf(s) == h.leaf(t) ==> s == t)
    && (forall t :: h.leaf(t) != h.tree.empty)
  }

  lemma EqualRoots<T(!new), D(!new)>(h: Digests<T, D>, a: seq<T>, b: seq<T>)
    requires Fits(h) && Separated(h) && |a| <= MAX_COUNT && |b| <= MAX_COUNT
    requires NodeAt(h.tree, Leaves(h, a), h.depth, 0) == NodeAt(h.tree, Leaves(h, b), h.depth, 0)
    ensures a == b
  {
    forall i: nat | i <= MAX_COUNT
      ensures LeafAt(h.tree, Leaves(h, a), i) == LeafAt(h.tree, Leaves(h, b), i)
    {
      ShiftZero(i, h.depth);
      Descend(h.tree, Leaves(h, a), Leaves(h, b), h.depth, i);
    }
    assert LeafAt(h.tree, Leaves(h, a), |a|) == LeafAt(h.tree, Leaves(h, b), |a|);
    assert LeafAt(h.tree, Leaves(h, a), |b|) == LeafAt(h.tree, Leaves(h, b), |b|);
    forall i | 0 <= i < |a| && i < |b| ensures a[i] == b[i] {
      assert LeafAt(h.tree, Leaves(h, a), i) == LeafAt(h.tree, Leaves(h, b), i);
    }
  }

  /** Two runs with the same nonempty root appended the same transcripts in the same order: the
      order handed to the confidence engine, refolded to the on-chain root, is the on-chain order. */
  lemma RootDeterminesTranscripts<T(!new), D(!new)>(h: Digests<T, D>, a: seq<Input<T, D>>, b: seq<Input<T, D>>)
    requires Fits(h) && Separated(h)
    requires RunOf(h, a).transcripts != [] && RunOf(h, b).transcripts != []
    requires RunOf(h, a).epoch.root == RunOf(h, b).epoch.root
    ensures RunOf(h, a).transcripts == RunOf(h, b).transcripts
  {
    RunKeepsInv(h, a);
    RunKeepsInv(h, b);
    EqualRoots(h, RunOf(h, a).transcripts, RunOf(h, b).transcripts);
  }

  /** A nonzero confidence commitment was accepted for the root and observer count the account
      still has, so for exactly the transcripts it now holds. */
  lemma ConfidenceIsCurrent<T, D>(h: Digests<T, D>, inputs: seq<Input<T, D>>)
    requires Fits(h)
    ensures var r := RunOf(h, inputs);
      r.epoch.confidence != h.zero ==>
        r.transcripts != [] &&
        exists args :: args in r.accepted && args.commitment == r.epoch.confidence &&
          args.observerCount == |r.transcripts| &&
          args.root == NodeAt(h.tree, Leaves(h, r.transcripts), h.depth, 0)
  {
    RunKeepsInv(h, inputs);
    var r := RunOf(h, inputs);
    if r.epoch.confidence != h.zero {
      var args :| args in r.accepted && Current(r.epoch, args);
      assert args.observerCount == |r.transcripts|;
    }
  }

  /** A transcript order that refolds to the root on chain is the order in which the chain got them. */
  lemma RefoldDeterminesTranscripts<T(!new), D(!new)>(h: Digests<T, D>, order: seq<T>, inputs: seq<Input<T, D>>)
    requires Fits(h) && Separated(h) && order != [] && |order| <= MAX_COUNT
    requires RunOf(h, inputs).transcripts != [] && Refolded(h, order).root == RunOf(h, inputs).epoch.root
    ensures order == RunOf(h, inputs).transcripts
  {
    RefoldedIsRun(h, order);
    RootDeterminesTranscripts(h, Observations(h, order), inputs);
  }

  function Observations<T, D>(h: Digests<T, D>, order: seq<T>): seq<Input<T, D>> {
    seq(|order|, i requires 0 <= i < |order| => Observe(order[i]))
  }

  lemma {:induction false} RefoldedIsRun<T, D>(h: Digests<T, D>, order: seq<T>)
    requires |order| <= MAX_COUNT
    ensures RunOf(h, Observations(h, order)) == Run(Refolded(h, order), order, [])
  {
    if order != [] {
      var n := |order| - 1;
      var all, front, last := Observations(h, order), order[..n], order[n];
      RefoldedIsRun(h, front);
      assert all[..n] == Observations(h, front) && all[n] == Observe(last);
      ObserveNext(h, RunOf(h, all[..n]), last);
      assert RunOf(h, all) == Step(h, RunOf(h, all[..n]), all[n]);
      assert front + [last] == order;
    }
  }

  lemma ObserveNext<T, D>(h: Digests<T, D>, r: Run<T, D>, t: T)
    requires |r.epoch.frontier| == h.depth && r.epoch.count < MAX_COUNT
    ensures Step(h, r, Observe(t)) == Run(Appended(h, r.epoch, t), r.transcripts + [t], r.accepted)
  {
  }

  /** Each publication replaces the one before it, or starts afresh after a new observation. */
  ghost predicate Follows<D>(zero: D, args: PublishArgs<D>, next: PublishArgs<D>) {
    args.observerCount <= next.observerCount &&
    next.previous == if args.observerCount == next.observerCount then args.commitment else zero
  }

  ghost predicate Linked<T, D>(h: Digests<T, D>, r: Run<T, D>) {
    && (forall i :: 0 < i < |r.accepted| ==> Follows(h.zero, r.accepted[i - 1], r.accepted[i]))
    && (r.accepted != [] ==> r.accepted[0].previous == h.zero)
    && (r.accepted == [] ==> r.epoch.confidence == h.zero)
    && (r.accepted != [] ==>
         var last := r.accepted[|r.accepted| - 1];
         last.observerCount <= r.epoch.count &&
         r.epoch.confidence == if last.observerCount == r.epoch.count then last.commitment else h.zero)
  }

  /** Over every run the accepted publications form one chain by their compare-and-swap arguments: none
      is lost, overwritten unseen, or made against an older tree. */
  lemma {:induction false} PublicationsAreLinked<T, D>(h: Digests<T, D>, inputs: seq<Input<T, D>>)
    ensures Linked(h, RunOf(h, inputs))
  {
    if inputs != [] { PublicationsAreLinked(h, inputs[..|inputs| - 1]); }
  }
}
