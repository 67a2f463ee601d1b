/** The confidence engine's intake: which inputs are taken, and which error the others raise. */
module Intake {
  import opened Wrappers
  import Powers

  const MAX_RECORDS: nat := 10_000
  const MAX_RISK: nat := 1_000_000

  /** One constructor per message. InvalidRisk to DuplicateNullifier are raised while reading the inputs. */
  datatype Error =
    | InvalidScope
    | InvalidRisk
    | InvalidEncoding
    | NoncanonicalEncoding
    | InvalidTranscript
    | ScopeMismatch
    | EvidenceMismatch
    | DuplicateNullifier
    | IncompleteTarget
    | TreeMismatch
    | TooManyPseudonyms

  datatype Evidence = NoEvidence | Unrecognized | MatchingWifi
  datatype Base64 = Strict | Malformed | Noncanonical
  datatype Risk = Unknown | Count(n: int) | Fractional
  type Class = c: nat | c <= 3

  /** One observation: the reenrollment metric; how its transcript is encoded, whether it decodes, belongs
      to the protocol, and what it says; how its evidence is encoded (Strict when there is none), whether
      the transcript binds it, and what it is. place: the geohash, if it is one. */
  datatype Input = Input(risk: Risk, encoding: Base64, decodes: bool, inProtocol: bool, hash: nat, nullifier: nat,
                         device: nat, epoch: nat, time: nat, pseudonym: nat, observerClass: Class, gps: nat,
                         place: Option<nat>, evidenceEncoding: Base64, bound: bool, evidence: Evidence)

  /** order: the epoch's transcript hashes in the order of its observation tree; root: that tree's root. */
  datatype Scope = Scope(wellFormed: bool, device: nat, epoch: nat, epochSeconds: nat, now: nat,
                         order: seq<nat>, root: nat, claimed: Option<nat>)

  predicate ScopeOk(scope: Scope, count: nat) {
    scope.wellFormed && scope.epochSeconds >= 1 && scope.now >= scope.epoch * scope.epochSeconds * 1000 &&
    1 <= count <= MAX_RECORDS
  }

  predicate RiskOk(risk: Risk) {
    match risk
    case Unknown => true
    case Count(n) => 0 <= n <= MAX_RISK
    case Fractional => false
  }

  function EncodingFault(encoding: Base64): Option<Error> {
    match encoding
    case Strict => None
    case Malformed => Some(InvalidEncoding)
    case Noncanonical => Some(NoncanonicalEncoding)
  }

  /** What is wrong with one input by itself, in the order of the checks. */
  function Fault(scope: Scope, x: Input): Option<Error>
    requires scope.epochSeconds >= 1
  {
    if !RiskOk(x.risk) then Some(InvalidRisk)
    else if EncodingFault(x.encoding).Some? then EncodingFault(x.encoding)
    else if !x.decodes then Some(InvalidTranscript)
    else if !x.inProtocol || x.time > scope.now || x.time / (scope.epochSeconds * 1000) != x.epoch then
      Some(ScopeMismatch)
    else if EncodingFault(x.evidenceEncoding).Some? then EncodingFault(x.evidenceEncoding)
    else if !x.bound then Some(EvidenceMismatch)
    else None
  }

  predicate Usable(scope: Scope, x: Input)
    requires scope.epochSeconds >= 1
  {
    Fault(scope, x).None?
  }

  function Nullifiers(inputs: seq<Input>): set<nat> { set x | x in inputs :: x.nullifier }

  /** The first problem met, in the order of the inputs. */
  function Problem(scope: Scope, inputs: seq<Input>): (e: Option<Error>)
    requires scope.epochSeconds >= 1
  {
    if inputs == [] then None
    else
      var n := |inputs| - 1;
      if Problem(scope, inputs[..n]).Some? then Problem(scope, inputs[..n])
      else if !Usable(scope, inputs[n]) then Fault(scope, inputs[n])
      else if inputs[n].nullifier in Nullifiers(inputs[..n]) then Some(DuplicateNullifier)
      else None
  }

  lemma {:induction false} ProblemPersists(scope: Scope, inputs: seq<Input>, more: seq<Input>)
    requires scope.epochSeconds >= 1 && Problem(scope, inputs).Some?
    ensures Problem(scope, inputs + more) == Problem(scope, inputs)
    decreases |more|
  {
    if more == [] {
      assert inputs + more == inputs;
    } else {
      var n := |inputs + more| - 1;
      assert (inputs + more)[..n] == inputs + more[..|more| - 1];
      ProblemPersists(scope, inputs, more[..|more| - 1]);
    }
  }

  method Admit(scope: Scope, inputs: seq<Input>) returns (refused: Option<Error>)
    requires scope.epochSeconds >= 1
    ensures refused == Problem(scope, inputs)
  {
    var nullifiers: set<nat> := {};
    for i := 0 to |inputs|
      invariant nullifiers == Nullifiers(inputs[..i]) && Problem(scope, inputs[..i]).None?
    {
      var x := inputs[i];
      assert inputs[..i + 1][..i] == inputs[..i];
      refused := Check(scope, x);
      if refused.Some? {
        Stopped(scope, inputs, i);
        return;
      }
      if x.nullifier in nullifiers {
        Stopped(scope, inputs, i);
        return Some(DuplicateNullifier);
      }
      nullifiers := nullifiers + {x.nullifier};
      assert inputs[..i + 1] == inputs[..i] + [x];
    }
    assert inputs[..|inputs|] == inputs;
    return None;
  }

  /** The checks on one input, each where it is made. */
  method Check(scope: Scope, x: Input) returns (fault: Option<Error>)
    requires scope.epochSeconds >= 1
    ensures fault == Fault(scope, x)
  {
    if x.risk.Fractional? || (x.risk.Count? && (x.risk.n < 0 || x.risk.n > MAX_RISK)) { return Some(InvalidRisk); }
    if x.encoding.Malformed? { return Some(InvalidEncoding); }
    if x.encoding.Noncanonical? { return Some(NoncanonicalEncoding); }
    if !x.decodes { return Some(InvalidTranscript); }
    if !x.inProtocol || x.time > scope.now { return Some(ScopeMismatch); }
    if x.time / (scope.epochSeconds * 1000) != x.epoch { return Some(ScopeMismatch); }
    if x.evidenceEncoding.Malformed? { return Some(InvalidEncoding); }
    if x.evidenceEncoding.Noncanonical? { return Some(NoncanonicalEncoding); }
    if !x.bound { return Some(EvidenceMismatch); }
    return None;
  }

  lemma Stopped(scope: Scope, inputs: seq<Input>, i: nat)
    requires i < |inputs| && scope.epochSeconds >= 1 && Problem(scope, inputs[..i + 1]).Some?
    ensures Problem(scope, inputs) == Problem(scope, inputs[..i + 1])
  {
    assert inputs == inputs[..i + 1] + inputs[i + 1..];
    ProblemPersists(scope, inputs[..i + 1], inputs[i + 1..]);
  }

  // ---------- which problem is met ----------

  /** The checks on one input in their order. The epoch is the one in which the time lies. */
  function Checks(scope: Scope, x: Input): seq<(bool, Option<Error>)> {
    [(x.risk == Unknown || (x.risk.Count? && 0 <= x.risk.n <= 1_000_000), Some(InvalidRisk)),
     (x.encoding != Malformed, Some(InvalidEncoding)),
     (x.encoding != Noncanonical, Some(NoncanonicalEncoding)),
     (x.decodes, Some(InvalidTranscript)),
     (x.inProtocol, Some(ScopeMismatch)),
     (x.time <= scope.now, Some(ScopeMismatch)),
     (scope.epochSeconds * 1000 * x.epoch <= x.time < scope.epochSeconds * 1000 * (x.epoch + 1), Some(ScopeMismatch)),
     (x.evidenceEncoding != Malformed, Some(InvalidEncoding)),
     (x.evidenceEncoding != Noncanonical, Some(NoncanonicalEncoding)),
     (x.bound, Some(EvidenceMismatch))]
  }

  lemma EpochOf(t: nat, d: nat, e: nat)
    requires d >= 1
    ensures t / d == e <==> d * e <= t < d * (e + 1)
  {
    var q := t / d;
    assert d * q <= t < d * (q + 1);
    if d * e <= t < d * (e + 1) {
      Powers.CancelLess(q, e + 1, d);
      Powers.CancelLess(e, q + 1, d);
    }
  }

  /** The fault of an input is that of the first check it fails. */
  lemma FaultIsFirstCheck(scope: Scope, x: Input)
    requires scope.epochSeconds >= 1
    ensures Fault(scope, x) == FirstFailing(Checks(scope, x), None)
  {
    EpochOf(x.time, scope.epochSeconds * 1000, x.epoch);
    FirstOfTen(Checks(scope, x), None);
  }

  /** The input at i is refused with e when it is its turn. */
  predicate RefusedAt(scope: Scope, inputs: seq<Input>, i: nat, e: Error)
    requires scope.epochSeconds >= 1 && i < |inputs|
  {
    Fault(scope, inputs[i]) == Some(e) ||
    (Fault(scope, inputs[i]).None? && e == DuplicateNullifier &&
     exists j :: 0 <= j < i && inputs[j].nullifier == inputs[i].nullifier)
  }

  predicate TakenAt(scope: Scope, inputs: seq<Input>, i: nat)
    requires scope.epochSeconds >= 1 && i < |inputs|
  {
    Fault(scope, inputs[i]).None? && forall j :: 0 <= j < i ==> inputs[j].nullifier != inputs[i].nullifier
  }

  ghost predicate FirstRefused(scope: Scope, inputs: seq<Input>, i: nat, e: Error)
    requires scope.epochSeconds >= 1
  {
    i < |inputs| && RefusedAt(scope, inputs, i, e) && forall j :: 0 <= j < i ==> TakenAt(scope, inputs, j)
  }

  /** The problem is that of the first input that is not taken. */
  lemma {:induction false} ProblemIsTheFirst(scope: Scope, inputs: seq<Input>)
    requires scope.epochSeconds >= 1
    ensures if Problem(scope, inputs).None? then forall i :: 0 <= i < |inputs| ==> TakenAt(scope, inputs, i)
            else exists i :: FirstRefused(scope, inputs, i, Problem(scope, inputs).value)
  {
    if inputs != [] {
      var n := |inputs| - 1;
      ProblemIsTheFirst(scope, inputs[..n]);
      if Problem(scope, inputs[..n]).Some? {
        var i :| FirstRefused(scope, inputs[..n], i, Problem(scope, inputs).value);
        FrontFirst(scope, inputs, i, Problem(scope, inputs).value);
      } else {
        FrontTaken(scope, inputs, inputs[..n], n);
        SeenBefore(inputs);
        if Problem(scope, inputs).Some? { assert FirstRefused(scope, inputs, n, Problem(scope, inputs).value); }
      }
    }
  }

  lemma FrontFirst(scope: Scope, inputs: seq<Input>, i: nat, e: Error)
    requires scope.epochSeconds >= 1 && inputs != [] && FirstRefused(scope, inputs[..|inputs| - 1], i, e)
    ensures FirstRefused(scope, inputs, i, e)
  {
    FrontTaken(scope, inputs, inputs[..|inputs| - 1], i);
    FrontRefused(scope, inputs, i, e);
  }

  lemma FrontTaken(scope: Scope, inputs: seq<Input>, front: seq<Input>, k: nat)
    requires scope.epochSeconds >= 1 && k < |inputs|
    requires front == inputs[..|inputs| - 1] && forall i :: 0 <= i < k ==> TakenAt(scope, front, i)
    ensures forall i :: 0 <= i < k ==> TakenAt(scope, inputs, i)
  {
    forall i | 0 <= i < k ensures TakenAt(scope, inputs, i) {
      assert TakenAt(scope, front, i);
      assert forall j :: 0 <= j <= i ==> front[j] == inputs[j];
    }
  }

  lemma FrontRefused(scope: Scope, inputs: seq<Input>, i: nat, e: Error)
    requires scope.epochSeconds >= 1 && i < |inputs| - 1 && RefusedAt(scope, inputs[..|inputs| - 1], i, e)
    ensures RefusedAt(scope, inputs, i, e)
  {
    assert forall j :: 0 <= j <= i ==> inputs[..|inputs| - 1][j] == inputs[j];
  }

  lemma SeenBefore(inputs: seq<Input>)
    requires inputs != []
    ensures var n := |inputs| - 1;
      inputs[n].nullifier in Nullifiers(inputs[..n]) <==>
        exists j :: 0 <= j < n && inputs[j].nullifier == inputs[n].nullifier
  {
    var n := |inputs| - 1;
    if inputs[n].nullifier in Nullifiers(inputs[..n]) {
      var x :| x in inputs[..n] && x.nullifier == inputs[n].nullifier;
      var j :| 0 <= j < n && inputs[..n][j] == x;
    }
    forall j | 0 <= j < n && inputs[j].nullifier == inputs[n].nullifier
      ensures inputs[n].nullifier in Nullifiers(inputs[..n])
    {
      assert inputs[..n][j] in inputs[..n];
    }
  }

  // ---------- what is admitted, whatever the order ----------

  ghost predicate HasUnusable(scope: Scope, inputs: seq<Input>)
    requires scope.epochSeconds >= 1
  {
    exists x :: x in multiset(inputs) && !Usable(scope, x)
  }

  predicate Clashing(scope: Scope, inputs: multiset<Input>, x: Input, y: Input)
    requires scope.epochSeconds >= 1
  {
    Usable(scope, x) && Usable(scope, y) && x.nullifier == y.nullifier && multiset{x, y} <= inputs
  }

  /** Two usable inputs, not necessarily different, carry the same nullifier. */
  ghost predicate HasClash(scope: Scope, inputs: seq<Input>)
    requires scope.epochSeconds >= 1
  {
    exists x, y :: Clashing(scope, multiset(inputs), x, y)
  }

  lemma LastInput(inputs: seq<Input>)
    requires inputs != []
    ensures multiset(inputs) == multiset(inputs[..|inputs| - 1]) + multiset{inputs[|inputs| - 1]}
  {
    assert inputs == inputs[..|inputs| - 1] + [inputs[|inputs| - 1]];
  }

  lemma FrontUnusable(scope: Scope, inputs: seq<Input>)
    requires scope.epochSeconds >= 1 && inputs != []
    ensures HasUnusable(scope, inputs) <==>
      HasUnusable(scope, inputs[..|inputs| - 1]) || !Usable(scope, inputs[|inputs| - 1])
  {
    LastInput(inputs);
  }

  lemma FrontClash(scope: Scope, inputs: seq<Input>)
    requires scope.epochSeconds >= 1 && inputs != [] && HasClash(scope, inputs[..|inputs| - 1])
    ensures HasClash(scope, inputs)
  {
    LastInput(inputs);
    var x, y :| Clashing(scope, multiset(inputs[..|inputs| - 1]), x, y);
    assert Clashing(scope, multiset(inputs), x, y);
  }

  lemma LastClash(scope: Scope, inputs: seq<Input>)
    requires scope.epochSeconds >= 1 && inputs != [] && !HasUnusable(scope, inputs)
    requires inputs[|inputs| - 1].nullifier in Nullifiers(inputs[..|inputs| - 1])
    ensures HasClash(scope, inputs)
  {
    LastInput(inputs);
    var n := |inputs| - 1;
    var x :| x in inputs[..n] && x.nullifier == inputs[n].nullifier;
    assert x in multiset(inputs[..n]);
    assert inputs[n] in multiset(inputs);
    assert Clashing(scope, multiset(inputs), x, inputs[n]);
  }

  lemma NoLastClash(scope: Scope, inputs: seq<Input>)
    requires scope.epochSeconds >= 1 && inputs != [] && !HasClash(scope, inputs[..|inputs| - 1])
    requires inputs[|inputs| - 1].nullifier !in Nullifiers(inputs[..|inputs| - 1])
    ensures !HasClash(scope, inputs)
  {
    LastInput(inputs);
    var front, last := inputs[..|inputs| - 1], inputs[|inputs| - 1];
    forall x, y | Clashing(scope, multiset(inputs), x, y) ensures false {
      ClashInFront(scope, front, last, x, y);
    }
  }

  lemma ClashInFront(scope: Scope, front: seq<Input>, last: Input, x: Input, y: Input)
    requires scope.epochSeconds >= 1 && Clashing(scope, multiset(front) + multiset{last}, x, y)
    requires last.nullifier !in Nullifiers(front)
    ensures Clashing(scope, multiset(front), x, y)
  {
    assert last !in front;
    assert multiset(front)[last] == 0;
    assert multiset{x, y}[x] >= 1 && multiset{x, y}[y] >= 1;
    assert x in front || x == last;
    assert y in front || y == last;
    assert x == y ==> multiset{x, y}[x] == 2;
  }

  /** Some input has this fault, or two usable ones clash. */
  ghost predicate CanRaise(scope: Scope, inputs: seq<Input>, e: Error)
    requires scope.epochSeconds >= 1
  {
    || (exists x :: x in multiset(inputs) && Fault(scope, x) == Some(e))
    || (e == DuplicateNullifier && HasClash(scope, inputs))
  }

  /** The intake succeeds exactly when every input is usable and no two share a nullifier. */
  lemma {:induction false} ProblemMeans(scope: Scope, inputs: seq<Input>)
    requires scope.epochSeconds >= 1
    ensures Problem(scope, inputs).None? <==> !HasUnusable(scope, inputs) && !HasClash(scope, inputs)
    ensures Problem(scope, inputs) == Some(DuplicateNullifier) ==> HasClash(scope, inputs)
  {
    if inputs != [] {
      var n := |inputs| - 1;
      ProblemMeans(scope, inputs[..n]);
      FrontUnusable(scope, inputs);
      if HasClash(scope, inputs[..n]) {
        FrontClash(scope, inputs);
      } else if inputs[n].nullifier in Nullifiers(inputs[..n]) {
        if !HasUnusable(scope, inputs) { LastClash(scope, inputs); }
      } else {
        NoLastClash(scope, inputs);
      }
    }
  }

  /** The error raised is one that can be raised. */
  lemma {:induction false} ProblemCanBeRaised(scope: Scope, inputs: seq<Input>)
    requires scope.epochSeconds >= 1 && Problem(scope, inputs).Some?
    ensures CanRaise(scope, inputs, Problem(scope, inputs).value)
  {
    ProblemMeans(scope, inputs);
    if Problem(scope, inputs).value != DuplicateNullifier {
      var n := |inputs| - 1;
      LastInput(inputs);
      if Problem(scope, inputs[..n]).Some? {
        ProblemCanBeRaised(scope, inputs[..n]);
        var x :| x in multiset(inputs[..n]) && Fault(scope, x) == Problem(scope, inputs);
        assert x in multiset(inputs);
      } else {
        assert inputs[n] in multiset(inputs);
      }
    }
  }

  // ---------- when the error depends on the order ----------

  /** Put a chosen pair, or a single input, first. */
  lemma MoveFirst(inputs: seq<Input>, x: Input) returns (rest: seq<Input>)
    requires x in multiset(inputs)
    ensures multiset([x] + rest) == multiset(inputs)
  {
    assert x in inputs;
    var i :| 0 <= i < |inputs| && inputs[i] == x;
    rest := inputs[..i] + inputs[i + 1..];
    assert inputs == inputs[..i] + [x] + inputs[i + 1..];
  }

  lemma FaultFirst(scope: Scope, inputs: seq<Input>, x: Input) returns (b: seq<Input>)
    requires scope.epochSeconds >= 1 && x in multiset(inputs) && Fault(scope, x).Some?
    ensures multiset(b) == multiset(inputs) && Problem(scope, b) == Fault(scope, x)
  {
    var rest := MoveFirst(inputs, x);
    b := [x] + rest;
    assert [x][..0] == [];
    ProblemPersists(scope, [x], rest);
  }

  lemma MovePairFirst(inputs: seq<Input>, x: Input, y: Input) returns (rest: seq<Input>)
    requires multiset{x, y} <= multiset(inputs)
    ensures multiset([x, y] + rest) == multiset(inputs)
  {
    assert multiset{x, y} == multiset{x} + multiset{y};
    assert x in multiset{x, y};
    var others := MoveFirst(inputs, x);
    assert multiset([x] + others) == multiset{x} + multiset(others);
    assert y in multiset(others);
    rest := MoveFirst(others, y);
    assert [x, y] + rest == [x] + ([y] + rest);
  }

  lemma ClashFirst(scope: Scope, inputs: seq<Input>) returns (b: seq<Input>)
    requires scope.epochSeconds >= 1 && HasClash(scope, inputs)
    ensures multiset(b) == multiset(inputs) && Problem(scope, b) == Some(DuplicateNullifier)
  {
    var x, y :| Clashing(scope, multiset(inputs), x, y);
    var rest := MovePairFirst(inputs, x, y);
    b := [x, y] + rest;
    PairProblem(scope, x, y);
    ProblemPersists(scope, [x, y], rest);
  }

  lemma PairProblem(scope: Scope, x: Input, y: Input)
    requires scope.epochSeconds >= 1 && Usable(scope, x) && Usable(scope, y) && x.nullifier == y.nullifier
    ensures Problem(scope, [x, y]) == Some(DuplicateNullifier)
  {
    var one, two := [x], [x, y];
    assert one[..0] == [];
    assert Problem(scope, one).None?;
    assert two[..1] == one && x in one;
  }

  /** Every error that can be raised is raised in some order. */
  lemma RaisedFirst(scope: Scope, inputs: seq<Input>, e: Error) returns (b: seq<Input>)
    requires scope.epochSeconds >= 1 && CanRaise(scope, inputs, e)
    ensures multiset(b) == multiset(inputs) && Problem(scope, b) == Some(e)
  {
    if x :| x in multiset(inputs) && Fault(scope, x) == Some(e) {
      b := FaultFirst(scope, inputs, x);
    } else {
      b := ClashFirst(scope, inputs);
    }
  }

  ghost predicate RaisedIn(scope: Scope, inputs: seq<Input>, b: seq<Input>, e: Error)
    requires scope.epochSeconds >= 1
  {
    multiset(b) == multiset(inputs) && Problem(scope, b) == Some(e)
  }

  /** The errors raised over all orders are exactly those that can be raised. */
  lemma RaisedExactly(scope: Scope, inputs: seq<Input>, e: Error)
    requires scope.epochSeconds >= 1
    ensures (exists b :: RaisedIn(scope, inputs, b, e)) <==> CanRaise(scope, inputs, e)
  {
    forall b | RaisedIn(scope, inputs, b, e) ensures CanRaise(scope, inputs, e) {
      ProblemCanBeRaised(scope, b);
    }
    if CanRaise(scope, inputs, e) {
      var b := RaisedFirst(scope, inputs, e);
      assert RaisedIn(scope, inputs, b, e);
    }
  }

  ghost predicate OrderFree(scope: Scope, inputs: seq<Input>)
    requires scope.epochSeconds >= 1
  {
    forall b :: multiset(b) == multiset(inputs) ==> Problem(scope, b) == Problem(scope, inputs)
  }

  ghost predicate TwoErrors(scope: Scope, inputs: seq<Input>, e: Error, f: Error)
    requires scope.epochSeconds >= 1
  {
    e != f && CanRaise(scope, inputs, e) && CanRaise(scope, inputs, f)
  }

  /** The outcome of the intake is the same in every order if and only if no two different errors can be
      raised. */
  lemma ProblemIsOrderFree(scope: Scope, inputs: seq<Input>)
    requires scope.epochSeconds >= 1
    ensures OrderFree(scope, inputs) <==> !exists e, f :: TwoErrors(scope, inputs, e, f)
  {
    if e, f :| TwoErrors(scope, inputs, e, f) {
      var b := RaisedFirst(scope, inputs, e);
      var c := RaisedFirst(scope, inputs, f);
      assert Problem(scope, b) != Problem(scope, c);
    }
    forall b | multiset(b) == multiset(inputs) && !exists e, f :: TwoErrors(scope, inputs, e, f)
      ensures Problem(scope, b) == Problem(scope, inputs)
    {
      SameUnlessTwo(scope, inputs, b);
    }
  }

  lemma SameUnlessTwo(scope: Scope, a: seq<Input>, b: seq<Input>)
    requires scope.epochSeconds >= 1 && multiset(a) == multiset(b)
    ensures Problem(scope, a) == Problem(scope, b) ||
      (Problem(scope, a).Some? && Problem(scope, b).Some? &&
       TwoErrors(scope, a, Problem(scope, a).value, Problem(scope, b).value))
  {
    ProblemMeans(scope, a);
    ProblemMeans(scope, b);
    if Problem(scope, a).Some? {
      ProblemCanBeRaised(scope, a);
      ProblemCanBeRaised(scope, b);
    }
  }

  // ---------- a pair without a common nullifier ----------

  const Sound := Input(Unknown, Strict, true, true, 1, 1, 0, 0, 0, 0, 1, 0, None, Strict, true, NoEvidence)
  const NegativeRisk := Sound.(risk := Count(-1))
  const Foreign := Sound.(inProtocol := false, hash := 2, nullifier := 2)

  /** A negative metric and a transcript of another protocol: each is complained about when it comes first. */
  lemma OrderDecides(scope: Scope)
    requires scope.epochSeconds >= 1
    ensures Problem(scope, [NegativeRisk, Foreign]) == Some(InvalidRisk)
    ensures Problem(scope, [Foreign, NegativeRisk]) == Some(ScopeMismatch)
    ensures !HasClash(scope, [NegativeRisk, Foreign])
  {
    FirstRaises(scope, NegativeRisk, Foreign);
    FirstRaises(scope, Foreign, NegativeRisk);
    forall x, y ensures !Clashing(scope, multiset([NegativeRisk, Foreign]), x, y) {
      assert multiset{x, y}[x] >= 1;
      assert x in multiset([NegativeRisk, Foreign]) ==> Fault(scope, x).Some?;
    }
  }

  lemma FirstRaises(scope: Scope, x: Input, y: Input)
    requires scope.epochSeconds >= 1 && Fault(scope, x).Some?
    ensures Problem(scope, [x, y]) == Fault(scope, x)
  {
    assert [x][..0] == [] && [x] + [y] == [x, y];
    ProblemPersists(scope, [x], [y]);
  }
}
