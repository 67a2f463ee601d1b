/** Observer roots on chain: the four-slot ring of recent roots. */
module Roots {
  const FIELD_MODULUS: nat := 21888242871839275222246405745257275088548364400416034343698204186575808495617
  const MAX_OBSERVERS: nat := 1_048_576
  const U64_MAX: nat := 0xffff_ffff_ffff_ffff
  const SLOTS: nat := 4

  type Root = nat

  // ---------- the ring ----------

  datatype Ring = Ring(publications: nat, recent: seq<Root>)

  function Pushed(r: Ring, root: Root): Ring
    requires |r.recent| == SLOTS
  {
    Ring(r.publications + 1, r.recent[r.publications % SLOTS := root])
  }

  predicate Publishable(r: Ring, root: Root, leafCount: nat) {
    root < FIELD_MODULUS && leafCount <= MAX_OBSERVERS && r.publications < U64_MAX
  }

  class EnrollmentAuthority {
    const recent: array<Root>
    var publications: nat

    ghost predicate Valid() reads this { recent.Length == SLOTS }
    ghost function Abs(): Ring reads this, recent { Ring(publications, recent[..]) }

    constructor ()
      ensures Valid() && Abs() == Ring(0, [0, 0, 0, 0]) && fresh(recent)
    {
      recent := new Root[SLOTS](_ => 0);
      publications := 0;
    }

    method PublishRoot(root: Root, leafCount: nat) returns (ok: bool)
      requires Valid()
      modifies this, recent
      ensures Valid() && ok == Publishable(old(Abs()), root, leafCount)
      ensures ok <==> root < FIELD_MODULUS && leafCount <= 1_048_576 && old(publications) < 0xffff_ffff_ffff_ffff
      ensures Abs() == if ok then Pushed(old(Abs()), root) else old(Abs())
    {
      if root >= FIELD_MODULUS || leafCount > MAX_OBSERVERS { return false; }
      var index := publications % SLOTS;
      if publications + 1 > U64_MAX { return false; }
      publications := publications + 1;
      recent[index] := root;
      return true;
    }

    /** The check of a submission: is the root among the last min(4, publications)? */
    method IsActive(root: Root) returns (yes: bool)
      requires Valid()
      ensures yes <==> root in ActiveRoots(Abs())
    {
      var active := if publications < SLOTS then publications else SLOTS;
      var i := 0;
      yes := false;
      while i < active && !yes
        invariant i <= active && (yes <==> root in ActiveRoots(Abs())[..i])
      {
        assert ActiveRoots(Abs())[..i + 1] == ActiveRoots(Abs())[..i] + [recent[(publications - 1 - i) % SLOTS]];
        yes := recent[(publications - 1 - i) % SLOTS] == root;
        i := i + 1;
      }
      assert ActiveRoots(Abs())[..active] == ActiveRoots(Abs());
    }
  }

  /** The SDK's view: newest first. */
  function ActiveRoots(r: Ring): (roots: seq<Root>)
    requires |r.recent| == SLOTS
    ensures |roots| == if r.publications < SLOTS then r.publications else SLOTS
  {
    seq(if r.publications < SLOTS then r.publications else SLOTS, i requires 0 <= i < SLOTS && i < r.publications =>
      r.recent[(r.publications - 1 - i) % SLOTS])
  }

  /** The newest k roots of a history, newest first. */
  function Newest(history: seq<Root>, k: nat): (roots: seq<Root>) {
    if k == 0 || history == [] then [] else [history[|history| - 1]] + Newest(history[..|history| - 1], k - 1)
  }

  ghost predicate Holds(r: Ring, history: seq<Root>) {
    && |r.recent| == SLOTS && r.publications == |history|
    && forall j :: 0 <= j < |history| && |history| <= j + SLOTS ==> InSlot(r, history, j)
  }

  /** The j-th published root sits in its slot. */
  ghost predicate InSlot(r: Ring, history: seq<Root>, j: nat)
    requires |r.recent| == SLOTS && j < |history|
  { r.recent[j % SLOTS] == history[j] }

  lemma PushKeepsRing(r: Ring, history: seq<Root>, root: Root)
    requires Holds(r, history)
    ensures Holds(Pushed(r, root), history + [root])
  {
    var n, r', h' := |history|, Pushed(r, root), history + [root];
    forall j: nat | j < |h'| && |h'| <= j + SLOTS ensures InSlot(r', h', j) {
      if j < n {
        SlotsDiffer(j, n);
        assert InSlot(r, history, j);
      }
    }
  }

  lemma SlotsDiffer(j: nat, n: nat)
    requires j < n < j + SLOTS
    ensures j % SLOTS != n % SLOTS
  {
    assert (n - j) % SLOTS == n - j;
  }

  lemma {:induction false} NewestAt(history: seq<Root>, k: nat)
    ensures |Newest(history, k)| == if |history| < k then |history| else k
    ensures forall i {:trigger Newest(history, k)[i]} :: 0 <= i < |Newest(history, k)| ==>
      Newest(history, k)[i] == history[|history| - 1 - i]
  {
    if k > 0 && history != [] { NewestAt(history[..|history| - 1], k - 1); }
  }

  function Published(history: seq<Root>): (r: Ring)
    ensures |r.recent| == SLOTS
  {
    if history == [] then Ring(0, [0, 0, 0, 0])
    else Pushed(Published(history[..|history| - 1]), history[|history| - 1])
  }

  lemma {:induction false} PublishedHolds(history: seq<Root>)
    ensures Holds(Published(history), history)
  {
    if history != [] {
      PublishedHolds(history[..|history| - 1]);
      PushKeepsRing(Published(history[..|history| - 1]), history[..|history| - 1], history[|history| - 1]);
      assert history[..|history| - 1] + [history[|history| - 1]] == history;
    }
  }

  /** After any publications exactly the last min(4, n) roots are active, newest first. */
  lemma ActiveAreTheLastFour(history: seq<Root>)
    ensures ActiveRoots(Published(history)) == Newest(history, 4)
  {
    NewestAt(history, SLOTS);
    PublishedSlot(history, |history|);
    forall i: nat | i < |ActiveRoots(Published(history))|
      ensures ActiveRoots(Published(history))[i] == history[|history| - 1 - i]
    {
      PublishedSlot(history, |history| - 1 - i);
    }
  }

  lemma PublishedSlot(history: seq<Root>, j: nat)
    ensures Published(history).publications == |history|
    ensures j < |history| <= j + SLOTS ==> Published(history).recent[j % SLOTS] == history[j]
  {
    PublishedHolds(history);
    if j < |history| <= j + SLOTS { assert InSlot(Published(history), history, j); }
  }
}
