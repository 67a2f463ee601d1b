/** The density study's advertisement classifier: a validated registry of rules, the classification
    of one advertisement, and the merge of the verdicts of several sightings of one peripheral. */
module Classifier {
  import opened Wrappers

  /** Identifiers are compared as strings are: by a total order, here that of their ranks. */
  type Id = nat
  type Bytes = seq<bv8>
  datatype Category = Helium | Wifi | Ev | Unknown
  datatype Signature = Signature(company: nat, prefix: Bytes)

  /** named, sourced: the identifier and the source reference are more than white space. */
  datatype Rule = Rule(id: Id, named: bool, category: Category, confidence: nat, sourced: bool, services: set<nat>,
                       signature: Option<Signature>, priority: int)

  datatype Reason = Matched | NoMatch | AmbiguousMatch
  datatype Outcome = Outcome(category: Category, rule: Option<Id>, confidence: Option<nat>,
                             priority: Option<int>, reason: Reason)

  const Unmatched := Outcome(Unknown, None, None, None, NoMatch)

  function Ambiguous(priority: int): Outcome { Outcome(Unknown, None, None, Some(priority), AmbiguousMatch) }

  function OutcomeOfRule(r: Rule): Outcome {
    Outcome(r.category, Some(r.id), Some(r.confidence), Some(r.priority), Matched)
  }

  // ---------- merging and classifying, as written ----------

  function Rank(c: Option<nat>): int { match c case None => -1 case Some(n) => n }

  function Merging(own: Outcome, sighting: Outcome): Outcome {
    if sighting.priority.None? then own
    else if own.priority.None? then sighting
    else if sighting.priority.value > own.priority.value then sighting
    else if sighting.priority.value < own.priority.value then own
    else if own.reason == AmbiguousMatch then own
    else if sighting.reason == AmbiguousMatch then sighting
    else if own.category != sighting.category then Ambiguous(own.priority.value)
    else if Rank(sighting.confidence) != Rank(own.confidence) then
      if Rank(sighting.confidence) > Rank(own.confidence) then sighting else own
    else if own.rule.None? || sighting.rule.None? then own
    else if sighting.rule.value < own.rule.value then sighting else own
  }

  datatype ManufacturerData = ManufacturerData(company: nat, payload: Bytes)
  datatype Advertisement = Advertisement(services: set<nat>, manufacturer: Option<ManufacturerData>)

  predicate SignatureMatches(s: Signature, data: ManufacturerData) {
    s.prefix != [] && data.company == s.company && |data.payload| >= |s.prefix| &&
    data.payload[..|s.prefix|] == s.prefix
  }

  predicate Matches(r: Rule, ad: Advertisement) {
    && (r.services != {} ==> r.services * ad.services != {})
    && (r.signature.Some? ==> ad.manufacturer.Some? && SignatureMatches(r.signature.value, ad.manufacturer.value))
    && (r.services != {} || r.signature.Some?)
  }

  function Matching(rules: seq<Rule>, ad: Advertisement): seq<Rule> {
    if rules == [] then []
    else (if Matches(rules[0], ad) then [rules[0]] else []) + Matching(rules[1..], ad)
  }

  function WithPriority(rules: seq<Rule>, p: int): seq<Rule> {
    if rules == [] then []
    else (if rules[0].priority == p then [rules[0]] else []) + WithPriority(rules[1..], p)
  }

  /** Higher confidence first, then the smaller identifier. */
  predicate Better(a: Rule, b: Rule) {
    if a.confidence == b.confidence then a.id < b.id else a.confidence > b.confidence
  }

  function Best(rules: seq<Rule>): Rule
    requires rules != []
  {
    if |rules| == 1 then rules[0]
    else
      var rest := Best(rules[1..]);
      if Better(rest, rules[0]) then rest else rules[0]
  }

  /** The classifier, over a registry's rules sorted by descending priority. */
  function Classify(rules: seq<Rule>, ad: Advertisement): Outcome {
    var matches := Matching(rules, ad);
    if matches == [] then Unmatched
    else
      var contenders := WithPriority(matches, matches[0].priority);
      if |set r | r in contenders :: r.category| != 1 then Ambiguous(matches[0].priority)
      else if contenders == [] then Unmatched
      else OutcomeOfRule(Best(contenders))
  }

  // ---------- the registry ----------

  predicate Precedes(a: Rule, b: Rule) {
    if a.priority == b.priority then a.id < b.id else a.priority > b.priority
  }

  predicate Sorted(rules: seq<Rule>) {
    forall i, j :: 0 <= i < j < |rules| ==> Precedes(rules[i], rules[j])
  }

  predicate Acceptable(r: Rule) {
    r.named && r.sourced && r.category != Unknown && r.priority >= 0 && (r.services != {} || r.signature.Some?) &&
    (r.signature.Some? ==> r.signature.value.prefix != [])
  }

  /** Identifiers distinct, and no two rules with the same criteria. */
  predicate Accepted(rules: seq<Rule>) {
    && (forall i :: 0 <= i < |rules| ==> Acceptable(rules[i]))
    && (forall i, j :: 0 <= i < j < |rules| ==> rules[i].id != rules[j].id)
    && (forall i, j :: 0 <= i < j < |rules| ==>
         !(rules[i].services == rules[j].services && rules[i].signature == rules[j].signature))
  }

  /** The longest prefix any rule declares for a company, or 0. */
  function LongestPrefix(rules: seq<Rule>, company: nat): nat {
    if rules == [] then 0
    else
      LongerPrefix(rules[|rules| - 1], company, LongestPrefix(rules[..|rules| - 1], company))
  }

  function LongerPrefix(r: Rule, company: nat, known: nat): nat {
    if r.signature.Some? && r.signature.value.company == company && |r.signature.value.prefix| > known
    then |r.signature.value.prefix| else known
  }

  predicate Declares(rules: seq<Rule>, company: nat) {
    exists i :: 0 <= i < |rules| && rules[i].signature.Some? && rules[i].signature.value.company == company
  }

  function Insert(sorted: seq<Rule>, r: Rule): seq<Rule> {
    if sorted == [] then [r]
    else if Precedes(r, sorted[0]) then [r] + sorted
    else [sorted[0]] + Insert(sorted[1..], r)
  }

  lemma {:induction false} InsertSorted(sorted: seq<Rule>, r: Rule)
    requires Sorted(sorted) && forall i :: 0 <= i < |sorted| ==> sorted[i].id != r.id
    ensures Sorted(Insert(sorted, r))
    ensures forall x :: x in Insert(sorted, r) <==> x == r || x in sorted
  {
    if sorted != [] && !Precedes(r, sorted[0]) {
      InsertSorted(sorted[1..], r);
      var rest := Insert(sorted[1..], r);
      forall j | 0 <= j < |rest| ensures Precedes(sorted[0], rest[j]) {
        assert rest[j] in rest;
        if rest[j] != r {
          assert rest[j] in sorted[1..];
          var k :| 0 <= k < |sorted[1..]| && sorted[1..][k] == rest[j];
          assert rest[j] == sorted[k + 1];
        }
      }
      assert sorted == [sorted[0]] + sorted[1..];
    }
  }

  /** The first i rules are accepted, sorted into rules and indexed by company. */
  ghost predicate Indexed(input: seq<Rule>, i: nat, rules: seq<Rule>, prefixLengths: map<nat, nat>) {
    && i <= |input| && Accepted(input[..i])
    && Sorted(rules) && (forall r :: r in rules <==> r in input[..i])
    && (forall c :: c in prefixLengths <==> Declares(input[..i], c))
    && (forall c :: c in prefixLengths ==> prefixLengths[c] == LongestPrefix(input[..i], c))
  }

  datatype Fault =
    | EmptyVersion
    | EmptyRuleIdentifier
    | DuplicateRuleIdentifier(id: Id)
    | ReservedCategory(id: Id)
    | EmptySourceReference(id: Id)
    | NegativePriority(id: Id)
    | MissingSignature(id: Id)
    | EmptyPrefix(id: Id)
    | DuplicateSignature(first: Id, second: Id)

  /** The two identifiers in order. */
  function Duplicate(a: Id, b: Id): Fault {
    if a < b then DuplicateSignature(a, b) else DuplicateSignature(b, a)
  }

  type Criteria = (set<nat>, Option<Signature>)

  function CriteriaOf(r: Rule): Criteria { (r.services, r.signature) }

  function Ids(rules: seq<Rule>): set<Id> { set r | r in rules :: r.id }

  /** The latest rule with the given criteria. */
  function Owner(rules: seq<Rule>, c: Criteria): (owner: Option<Id>)
    ensures owner.Some? <==> exists i :: 0 <= i < |rules| && CriteriaOf(rules[i]) == c
  {
    if rules == [] then None
    else if CriteriaOf(rules[|rules| - 1]) == c then Some(rules[|rules| - 1].id)
    else Owner(rules[..|rules| - 1], c)
  }

  /** What is wrong with a rule after the earlier ones, in the order of the checks. */
  function FaultOf(r: Rule, earlier: seq<Rule>): Option<Fault> {
    if !r.named then Some(EmptyRuleIdentifier)
    else if r.id in Ids(earlier) then Some(DuplicateRuleIdentifier(r.id))
    else if r.category == Unknown then Some(ReservedCategory(r.id))
    else if !r.sourced then Some(EmptySourceReference(r.id))
    else if r.priority < 0 then Some(NegativePriority(r.id))
    else if r.services == {} && r.signature.None? then Some(MissingSignature(r.id))
    else if r.signature.Some? && r.signature.value.prefix == [] then Some(EmptyPrefix(r.id))
    else match Owner(earlier, CriteriaOf(r))
      case None => None
      case Some(owner) => Some(Duplicate(owner, r.id))
  }

  function FirstFault(rules: seq<Rule>): Option<Fault> {
    if rules == [] then None
    else
      var earlier := rules[..|rules| - 1];
      if FirstFault(earlier).Some? then FirstFault(earlier) else FaultOf(rules[|rules| - 1], earlier)
  }

  lemma {:induction false} FaultPersists(rules: seq<Rule>, more: seq<Rule>)
    requires FirstFault(rules).Some?
    ensures FirstFault(rules + more) == FirstFault(rules)
    decreases |more|
  {
    if more == [] {
      assert rules + more == rules;
    } else {
      assert (rules + more)[..|rules + more| - 1] == rules + more[..|more| - 1];
      FaultPersists(rules, more[..|more| - 1]);
    }
  }

  lemma Stopped(input: seq<Rule>, i: nat)
    requires i < |input| && FirstFault(input[..i + 1]).Some?
    ensures FirstFault(input) == FirstFault(input[..i + 1])
  {
    assert input == input[..i + 1] + input[i + 1..];
    FaultPersists(input[..i + 1], input[i + 1..]);
  }

  /** A set of rules without a fault is one whose rules are sound and pairwise differ in identifier and
      in criteria. */
  lemma {:induction false} FaultlessIsAccepted(rules: seq<Rule>)
    ensures FirstFault(rules).None? <==> Accepted(rules)
  {
    if rules != [] {
      var n := |rules| - 1;
      FaultlessIsAccepted(rules[..n]);
      LastRule(rules);
      if FirstFault(rules[..n]).None? { AcceptNext(rules); }
    }
  }

  lemma LastRule(rules: seq<Rule>)
    requires rules != []
    ensures Accepted(rules) ==> Accepted(rules[..|rules| - 1])
  {
  }

  lemma AcceptNext(rules: seq<Rule>)
    requires rules != [] && Accepted(rules[..|rules| - 1])
    ensures Accepted(rules) <==> FaultOf(rules[|rules| - 1], rules[..|rules| - 1]).None?
  {
    var n := |rules| - 1;
    assert forall i :: 0 <= i < n ==> rules[..n][i] == rules[i];
    assert rules[n].id in Ids(rules[..n]) <==> exists i :: 0 <= i < n && rules[i].id == rules[n].id;
  }

  function WithCompany(prefixLengths: map<nat, nat>, r: Rule): map<nat, nat> {
    if r.signature.None? then prefixLengths
    else
      var c := r.signature.value.company;
      prefixLengths[c := LongerPrefix(r, c, if c in prefixLengths then prefixLengths[c] else 0)]
  }

  lemma RulesNext(front: seq<Rule>, rules: seq<Rule>, r: Rule)
    requires Sorted(rules) && (forall x :: x in rules <==> x in front) && r.id !in Ids(front)
    ensures Sorted(Insert(rules, r)) && forall x :: x in Insert(rules, r) <==> x in front + [r]
  {
    forall j | 0 <= j < |rules| ensures rules[j].id != r.id {
      assert rules[j] in rules;
      assert rules[j] in front;
    }
    InsertSorted(rules, r);
  }

  lemma PrefixesNext(front: seq<Rule>, prefixLengths: map<nat, nat>, r: Rule)
    requires forall c :: c in prefixLengths <==> Declares(front, c)
    requires forall c :: c in prefixLengths ==> prefixLengths[c] == LongestPrefix(front, c)
    ensures var lengths := WithCompany(prefixLengths, r);
      (forall c :: c in lengths <==> Declares(front + [r], c)) &&
      (forall c :: c in lengths ==> lengths[c] == LongestPrefix(front + [r], c))
  {
    DeclaresNext(front, r);
    Undeclared(front);
  }

  lemma IndexNext(input: seq<Rule>, i: nat, rules: seq<Rule>, prefixLengths: map<nat, nat>)
    requires Indexed(input, i, rules, prefixLengths) && i < |input| && FaultOf(input[i], input[..i]).None?
    ensures Indexed(input, i + 1, Insert(rules, input[i]), WithCompany(prefixLengths, input[i]))
  {
    assert input[..i + 1] == input[..i] + [input[i]];
    assert input[..i + 1][..i] == input[..i];
    AcceptNext(input[..i + 1]);
    RulesNext(input[..i], rules, input[i]);
    PrefixesNext(input[..i], prefixLengths, input[i]);
  }

  /** The two bytes of the company, low byte first. */
  function CompanyOf(raw: Bytes): nat
    requires |raw| >= 2
  {
    raw[0] as nat + 256 * raw[1] as nat
  }

  /** The whole manufacturer field, as it was received. */
  function Received(raw: Bytes): Option<ManufacturerData> {
    if |raw| < 2 then None else Some(ManufacturerData(CompanyOf(raw), raw[2..]))
  }

  class Registry {
    var rules: seq<Rule>
    var prefixLengths: map<nat, nat>
    var fault: Option<Fault>
    ghost const declared: seq<Rule>

    /** A registry that was accepted in full. */
    ghost predicate Valid() reads this {
      fault.None? && Indexed(declared, |declared|, rules, prefixLengths)
    }

    /** Every rule is checked in turn; the first problem rejects the whole registry. */
    constructor (versioned: bool, input: seq<Rule>)
      ensures declared == input && fault == if versioned then FirstFault(input) else Some(EmptyVersion)
      ensures fault.None? ==> Valid()
    {
      rules, prefixLengths, fault, declared := [], map[], None, input;
      new;
      if !versioned { fault := Some(EmptyVersion); return; }
      var ids: set<Id> := {};
      var owners: map<Criteria, Id> := map[];
      for i := 0 to |input|
        invariant fault.None? && FirstFault(input[..i]).None? && Indexed(input, i, rules, prefixLengths)
        invariant Scanned(input[..i], ids, owners)
      {
        var r := input[i];
        ScanNext(input, i, ids, owners);
        fault := Check(r, input[..i], ids, owners);
        if fault.Some? {
          Stopped(input, i);
          return;
        }
        IndexNext(input, i, rules, prefixLengths);
        if r.signature.Some? {
          var s := r.signature.value;
          var known := if s.company in prefixLengths then prefixLengths[s.company] else 0;
          prefixLengths := prefixLengths[s.company := if |s.prefix| > known then |s.prefix| else known];
        }
        ids, owners, rules := ids + {r.id}, owners[CriteriaOf(r) := r.id], Insert(rules, r);
      }
      assert input[..|input|] == input;
    }

    /** Companies no rule declares are refused before any payload is read, and of the others no more is
        kept than the longest prefix a rule can need; no rule can tell the difference. */
    method Narrow(raw: Bytes) returns (narrowed: Option<ManufacturerData>)
      requires Valid()
      ensures narrowed.Some? <==> |raw| >= 2 && Declares(declared, CompanyOf(raw))
      ensures narrowed.Some? ==>
        narrowed.value.company == CompanyOf(raw) && narrowed.value.payload <= raw[2..] &&
        |narrowed.value.payload| == Smaller(LongestPrefix(declared, CompanyOf(raw)), |raw| - 2)
      ensures forall r, services :: r in rules ==>
        (Matches(r, Advertisement(services, narrowed)) <==> Matches(r, Advertisement(services, Received(raw))))
    {
      ghost var given := Received(raw);
      assert declared[..|declared|] == declared;
      if |raw| < 2 { return None; }
      var company := raw[0] as nat + 256 * raw[1] as nat;
      if company !in prefixLengths {
        NarrowingIsInvisible(declared, prefixLengths, given);
        return None;
      }
      var length := Smaller(prefixLengths[company], |raw| - 2);
      assert raw[2..2 + length] == raw[2..][..length];
      NarrowingIsInvisible(declared, prefixLengths, given);
      return Some(ManufacturerData(company, raw[2..2 + length]));
    }
  }

  function Smaller(a: nat, b: nat): nat { if a < b then a else b }

  /** The identifiers and the criteria of the rules so far. */
  ghost predicate Scanned(rules: seq<Rule>, ids: set<Id>, owners: map<Criteria, Id>) {
    ids == Ids(rules) && forall c :: Owner(rules, c) == if c in owners then Some(owners[c]) else None
  }

  lemma ScanNext(input: seq<Rule>, i: nat, ids: set<Id>, owners: map<Criteria, Id>)
    requires i < |input| && Scanned(input[..i], ids, owners)
    ensures Scanned(input[..i + 1], ids + {input[i].id}, owners[CriteriaOf(input[i]) := input[i].id])
    ensures FirstFault(input[..i]).None? ==> FirstFault(input[..i + 1]) == FaultOf(input[i], input[..i])
  {
    assert input[..i + 1][..i] == input[..i] && input[..i + 1] == input[..i] + [input[i]];
  }

  /** The checks on one rule, against the identifiers and criteria seen so far. */
  method Check(r: Rule, ghost earlier: seq<Rule>, ids: set<Id>, owners: map<Criteria, Id>)
    returns (fault: Option<Fault>)
    requires Scanned(earlier, ids, owners)
    ensures fault == FaultOf(r, earlier)
  {
    if !r.named { return Some(EmptyRuleIdentifier); }
    if r.id in ids { return Some(DuplicateRuleIdentifier(r.id)); }
    if r.category == Unknown { return Some(ReservedCategory(r.id)); }
    if !r.sourced { return Some(EmptySourceReference(r.id)); }
    if r.priority < 0 { return Some(NegativePriority(r.id)); }
    if r.services == {} && r.signature.None? { return Some(MissingSignature(r.id)); }
    if r.signature.Some? && r.signature.value.prefix == [] { return Some(EmptyPrefix(r.id)); }
    if CriteriaOf(r) !in owners { return None; }
    var owner := owners[CriteriaOf(r)];
    return Some(Duplicate(owner, r.id));
  }

  function Narrowed(prefixLengths: map<nat, nat>, raw: Option<ManufacturerData>): Option<ManufacturerData> {
    if raw.None? || raw.value.company !in prefixLengths then None
    else
      var payload := raw.value.payload;
      Some(ManufacturerData(raw.value.company, payload[..Smaller(prefixLengths[raw.value.company], |payload|)]))
  }

  lemma DeclaresNext(rules: seq<Rule>, r: Rule)
    ensures forall c :: Declares(rules + [r], c) <==>
      Declares(rules, c) || (r.signature.Some? && r.signature.value.company == c)
    ensures forall c :: LongestPrefix(rules + [r], c) == LongerPrefix(r, c, LongestPrefix(rules, c))
  {
    assert (rules + [r])[..|rules|] == rules;
    forall c ensures Declares(rules + [r], c) <==>
      Declares(rules, c) || (r.signature.Some? && r.signature.value.company == c)
    {
      if Declares(rules, c) {
        var i :| 0 <= i < |rules| && rules[i].signature.Some? && rules[i].signature.value.company == c;
        assert (rules + [r])[i] == rules[i];
      }
      if r.signature.Some? && r.signature.value.company == c { assert (rules + [r])[|rules|] == r; }
    }
  }

  lemma {:induction false} UndeclaredOne(rules: seq<Rule>, c: nat)
    requires !Declares(rules, c)
    ensures LongestPrefix(rules, c) == 0
  {
    if rules != [] {
      assert rules[|rules| - 1].signature.None? || rules[|rules| - 1].signature.value.company != c;
      assert !Declares(rules[..|rules| - 1], c);
      UndeclaredOne(rules[..|rules| - 1], c);
    }
  }

  lemma Undeclared(rules: seq<Rule>)
    ensures forall c :: !Declares(rules, c) ==> LongestPrefix(rules, c) == 0
  {
    forall c | !Declares(rules, c) ensures LongestPrefix(rules, c) == 0 { UndeclaredOne(rules, c); }
  }

  lemma {:induction false} LongestIsLongest(rules: seq<Rule>, i: nat)
    requires i < |rules| && rules[i].signature.Some?
    ensures |rules[i].signature.value.prefix| <= LongestPrefix(rules, rules[i].signature.value.company)
  {
    if i < |rules| - 1 { LongestIsLongest(rules[..|rules| - 1], i); }
  }

  lemma NarrowingOne(rules: seq<Rule>, prefixLengths: map<nat, nat>, i: nat, services: set<nat>,
                     raw: Option<ManufacturerData>)
    requires i < |rules|
    requires forall c :: c in prefixLengths <==> Declares(rules, c)
    requires forall c :: c in prefixLengths ==> prefixLengths[c] == LongestPrefix(rules, c)
    ensures Matches(rules[i], Advertisement(services, Narrowed(prefixLengths, raw)))
        <==> Matches(rules[i], Advertisement(services, raw))
  {
    var r := rules[i];
    if r.signature.Some? && raw.Some? && raw.value.company == r.signature.value.company {
      LongestIsLongest(rules, i);
      assert Declares(rules, raw.value.company);
      var k, payload := |r.signature.value.prefix|, raw.value.payload;
      var kept := payload[..Smaller(prefixLengths[raw.value.company], |payload|)];
      if |payload| >= k { assert kept[..k] == payload[..k]; }
    }
  }

  /** Narrowing manufacturer data changes no rule's match. */
  lemma NarrowingIsInvisible(rules: seq<Rule>, prefixLengths: map<nat, nat>, raw: Option<ManufacturerData>)
    requires forall c :: c in prefixLengths <==> Declares(rules, c)
    requires forall c :: c in prefixLengths ==> prefixLengths[c] == LongestPrefix(rules, c)
    ensures forall r, services :: r in rules ==>
      (Matches(r, Advertisement(services, Narrowed(prefixLengths, raw))) <==>
       Matches(r, Advertisement(services, raw)))
  {
    forall r, services | r in rules
      ensures Matches(r, Advertisement(services, Narrowed(prefixLengths, raw))) <==>
        Matches(r, Advertisement(services, raw))
    {
      var i :| 0 <= i < |rules| && rules[i] == r;
      NarrowingOne(rules, prefixLengths, i, services, raw);
    }
  }

  // ---------- what an outcome says about a set of matched rules ----------

  predicate Tops(rules: set<Rule>, p: int) {
    (exists r :: r in rules && r.priority == p) && forall r :: r in rules ==> r.priority <= p
  }

  predicate Agree(rules: set<Rule>, p: int) {
    forall r, q :: r in rules && q in rules && r.priority == p && q.priority == p ==> r.category == q.category
  }

  /** The best contender at the top priority, when all contenders agree on the category. */
  predicate Wins(rules: set<Rule>, w: Rule) {
    w in rules && Tops(rules, w.priority) && Agree(rules, w.priority) &&
    forall r :: r in rules && r.priority == w.priority && r != w ==> Better(w, r)
  }

  /** An independent reading of a verdict: which set of matched rules it is the verdict of. */
  ghost predicate Describes(o: Outcome, rules: set<Rule>) {
    || (rules == {} && o == Unmatched)
    || (exists w :: Wins(rules, w) && o == OutcomeOfRule(w))
    || (exists p :: Tops(rules, p) && !Agree(rules, p) && o == Ambiguous(p))
  }

  predicate DistinctIds(rules: set<Rule>) {
    forall r, q :: r in rules && q in rules && r.id == q.id ==> r == q
  }

  lemma WinnerIsUnique(rules: set<Rule>, w: Rule, v: Rule)
    requires Wins(rules, w) && Wins(rules, v)
    ensures w == v
  {
    assert w.priority == v.priority;
  }

  lemma TopIsUnique(rules: set<Rule>, p: int, q: int)
    requires Tops(rules, p) && Tops(rules, q)
    ensures p == q
  {
  }

  lemma ReasonIsUnique(a: Outcome, b: Outcome, rules: set<Rule>)
    requires Describes(a, rules) && Describes(b, rules)
    ensures a.reason == b.reason
  {
    forall p, q | Tops(rules, p) && Tops(rules, q) ensures p == q { TopIsUnique(rules, p, q); }
  }

  lemma VerdictIsUnique(a: Outcome, b: Outcome, rules: set<Rule>)
    requires Describes(a, rules) && Describes(b, rules)
    ensures a == b
  {
    ReasonIsUnique(a, b, rules);
    match a.reason
    case NoMatch =>
    case Matched =>
      var w :| Wins(rules, w) && a == OutcomeOfRule(w);
      var v :| Wins(rules, v) && b == OutcomeOfRule(v);
      WinnerIsUnique(rules, w, v);
    case AmbiguousMatch =>
      var p :| Tops(rules, p) && !Agree(rules, p) && a == Ambiguous(p);
      var q :| Tops(rules, q) && !Agree(rules, q) && b == Ambiguous(q);
      TopIsUnique(rules, p, q);
  }

  lemma TopsOfUnion(s: set<Rule>, t: set<Rule>, p: int, q: int)
    requires Tops(s, p) && Tops(t, q)
    ensures Tops(s + t, if p < q then q else p)
  {
    var r :| r in s && r.priority == p;
    var u :| u in t && u.priority == q;
    assert r in s + t && u in s + t;
  }

  lemma WinOverLower(s: set<Rule>, t: set<Rule>, w: Rule, q: int)
    requires Wins(s, w) && Tops(t, q) && q < w.priority
    ensures Wins(s + t, w)
  {
    TopsOfUnion(s, t, w.priority, q);
  }

  lemma TieOverLower(s: set<Rule>, t: set<Rule>, p: int, q: int)
    requires Tops(s, p) && !Agree(s, p) && Tops(t, q) && q <= p
    ensures Tops(s + t, p) && !Agree(s + t, p)
  {
    TopsOfUnion(s, t, p, q);
    var r, u :| r in s && u in s && r.priority == p && u.priority == p && r.category != u.category;
    assert r in s + t && u in s + t;
  }

  lemma WinnersMeet(s: set<Rule>, t: set<Rule>, w: Rule, v: Rule)
    requires Wins(s, w) && Wins(t, v) && w.priority == v.priority && DistinctIds(s + t)
    ensures w.category != v.category ==> !Agree(s + t, w.priority)
    ensures w.category == v.category ==> Wins(s + t, if Better(v, w) then v else w)
  {
    TopsOfUnion(s, t, w.priority, v.priority);
    assert w in s + t && v in s + t;
    if w.category == v.category {
      var best := if Better(v, w) then v else w;
      forall r | r in s + t && r.priority == best.priority && r != best ensures Better(best, r) {
        if w == v {} else { assert Better(w, v) || Better(v, w); }
      }
    }
  }

  lemma MergeWinTie(s: set<Rule>, t: set<Rule>, w: Rule, q: int)
    requires Wins(s, w) && Tops(t, q) && !Agree(t, q)
    ensures Describes(Merging(OutcomeOfRule(w), Ambiguous(q)), s + t)
    ensures Describes(Merging(Ambiguous(q), OutcomeOfRule(w)), t + s)
  {
    assert t + s == s + t;
    if w.priority > q { WinOverLower(s, t, w, q); } else { TieOverLower(t, s, q, w.priority); }
  }

  lemma MergeTies(s: set<Rule>, t: set<Rule>, p: int, q: int)
    requires Tops(s, p) && !Agree(s, p) && Tops(t, q) && !Agree(t, q)
    ensures Describes(Merging(Ambiguous(p), Ambiguous(q)), s + t)
  {
    assert t + s == s + t;
    if q > p { TieOverLower(t, s, q, p); } else { TieOverLower(s, t, p, q); }
  }

  lemma MergeMatched(w: Rule, s: set<Rule>, b: Outcome, t: set<Rule>)
    requires Wins(s, w) && Describes(b, t) && DistinctIds(s + t)
    ensures Describes(Merging(OutcomeOfRule(w), b), s + t)
  {
    match b.reason
    case NoMatch => assert s + t == s;
    case Matched =>
      var v :| Wins(t, v) && b == OutcomeOfRule(v);
      MergeWinners(s, t, w, v);
    case AmbiguousMatch =>
      var q :| Tops(t, q) && !Agree(t, q) && b == Ambiguous(q);
      MergeWinTie(s, t, w, q);
  }

  lemma MergeAmbiguous(p: int, s: set<Rule>, b: Outcome, t: set<Rule>)
    requires Tops(s, p) && !Agree(s, p) && Describes(b, t) && DistinctIds(s + t)
    ensures Describes(Merging(Ambiguous(p), b), s + t)
  {
    match b.reason
    case NoMatch => assert s + t == s;
    case Matched =>
      var v :| Wins(t, v) && b == OutcomeOfRule(v);
      MergeWinTie(t, s, v, p);
      assert t + s == s + t;
    case AmbiguousMatch =>
      var q :| Tops(t, q) && !Agree(t, q) && b == Ambiguous(q);
      MergeTies(s, t, p, q);
  }

  /** Merging two verdicts is the verdict of the union of what they were verdicts of. */
  lemma MergeDescribesUnion(a: Outcome, s: set<Rule>, b: Outcome, t: set<Rule>)
    requires Describes(a, s) && Describes(b, t) && DistinctIds(s + t)
    ensures Describes(Merging(a, b), s + t)
  {
    match a.reason
    case NoMatch =>
      assert s + t == t;
    case Matched =>
      var w :| Wins(s, w) && a == OutcomeOfRule(w);
      MergeMatched(w, s, b, t);
    case AmbiguousMatch =>
      var p :| Tops(s, p) && !Agree(s, p) && a == Ambiguous(p);
      MergeAmbiguous(p, s, b, t);
  }

  /** On verdicts of rules with distinct identifiers merging is associative, ... */
  lemma MergingIsAssociative(a: Outcome, s: set<Rule>, b: Outcome, t: set<Rule>, c: Outcome, u: set<Rule>)
    requires Describes(a, s) && Describes(b, t) && Describes(c, u) && DistinctIds(s + t + u)
    ensures Merging(Merging(a, b), c) == Merging(a, Merging(b, c))
  {
    assert s + (t + u) == s + t + u;
    MergeDescribesUnion(a, s, b, t);
    MergeDescribesUnion(Merging(a, b), s + t, c, u);
    MergeDescribesUnion(b, t, c, u);
    MergeDescribesUnion(a, s, Merging(b, c), t + u);
    VerdictIsUnique(Merging(Merging(a, b), c), Merging(a, Merging(b, c)), s + t + u);
  }

  /** ... commutative and idempotent. */
  lemma MergingCommutes(a: Outcome, s: set<Rule>, b: Outcome, t: set<Rule>)
    requires Describes(a, s) && Describes(b, t) && DistinctIds(s + t)
    ensures Merging(a, b) == Merging(b, a) && Merging(a, a) == a
  {
    assert t + s == s + t && s + s == s;
    MergeDescribesUnion(a, s, b, t);
    MergeDescribesUnion(b, t, a, s);
    MergeDescribesUnion(a, s, a, s);
    VerdictIsUnique(Merging(a, b), Merging(b, a), s + t);
    VerdictIsUnique(Merging(a, a), a, s);
  }

  lemma MergeWinners(s: set<Rule>, t: set<Rule>, w: Rule, v: Rule)
    requires Wins(s, w) && Wins(t, v) && DistinctIds(s + t)
    ensures Describes(Merging(OutcomeOfRule(w), OutcomeOfRule(v)), s + t)
  {
    if v.priority > w.priority {
      WinOverLower(t, s, v, w.priority);
      assert t + s == s + t;
    } else if v.priority < w.priority {
      WinOverLower(s, t, w, v.priority);
    } else {
      WinnersMeet(s, t, w, v);
      TopsOfUnion(s, t, w.priority, v.priority);
    }
  }

  // ---------- the classifier computes the verdict of the rules that matched ----------

  ghost function RulesMatching(rules: seq<Rule>, ad: Advertisement): set<Rule> {
    set r | r in rules && Matches(r, ad)
  }

  lemma {:induction false} MatchingIsFilter(rules: seq<Rule>, ad: Advertisement)
    requires Sorted(rules)
    ensures forall r :: r in Matching(rules, ad) <==> r in rules && Matches(r, ad)
    ensures Matching(rules, ad) != [] ==>
      forall r :: r in Matching(rules, ad) ==> r.priority <= Matching(rules, ad)[0].priority
  {
    if rules != [] {
      MatchingIsFilter(rules[1..], ad);
      assert rules == [rules[0]] + rules[1..];
      forall r | r in rules[1..] ensures r.priority <= rules[0].priority {
        var i :| 0 <= i < |rules[1..]| && rules[1..][i] == r;
        assert Precedes(rules[0], rules[i + 1]);
      }
    }
  }

  lemma {:induction false} WithPriorityIsFilter(rules: seq<Rule>, p: int)
    ensures forall r :: r in WithPriority(rules, p) <==> r in rules && r.priority == p
  {
    if rules != [] {
      WithPriorityIsFilter(rules[1..], p);
      assert rules == [rules[0]] + rules[1..];
    }
  }

  lemma {:induction false} BestIsBest(rules: seq<Rule>)
    requires rules != [] && forall r, q :: r in rules && q in rules && r.id == q.id ==> r == q
    ensures Best(rules) in rules && forall r :: r in rules && r != Best(rules) ==> Better(Best(rules), r)
  {
    if |rules| > 1 {
      BestIsBest(rules[1..]);
      assert rules == [rules[0]] + rules[1..];
    }
  }

  lemma OneCategory(rules: seq<Rule>)
    requires rules != []
    ensures |set r | r in rules :: r.category| == 1 <==>
      forall r, q :: r in rules && q in rules ==> r.category == q.category
  {
    var cs := set r | r in rules :: r.category;
    var c := rules[0].category;
    assert rules[0] in rules && c in cs;
    if |cs| == 1 {
      assert |cs - {c}| == 0;
      assert cs - {c} == {};
      forall r | r in rules ensures r.category == c { assert r.category in cs; }
    }
    if forall r, q :: r in rules && q in rules ==> r.category == q.category {
      assert cs == {c};
    }
  }

  lemma ClassifyDescribesMatches(rules: seq<Rule>, ad: Advertisement)
    requires Sorted(rules)
    ensures Describes(Classify(rules, ad), RulesMatching(rules, ad))
  {
    var s, matches := RulesMatching(rules, ad), Matching(rules, ad);
    MatchingIsFilter(rules, ad);
    SortedIds(rules);
    if matches == [] {
      forall r ensures r !in s { assert r in s ==> r in matches; }
    } else {
      var p := matches[0].priority;
      var contenders := WithPriority(matches, p);
      WithPriorityIsFilter(matches, p);
      assert matches[0] in matches && matches[0] in contenders;
      assert Tops(s, p) by { assert matches[0] in s; }
      OneCategory(contenders);
      if Agree(s, p) {
        assert forall r, q :: r in contenders && q in contenders ==> r in s && q in s;
        BestIsBest(contenders);
        assert Wins(s, Best(contenders));
      } else {
        var r, q :| r in s && q in s && r.priority == p && q.priority == p && r.category != q.category;
        assert r in contenders && q in contenders;
      }
    }
  }

  lemma SortedIds(rules: seq<Rule>)
    requires Sorted(rules)
    ensures forall r, q :: r in rules && q in rules && r.priority == q.priority && r.id == q.id ==> r == q
  {
  }

  // ---------- main result ----------

  /** Sightings of one peripheral, grouped and ordered in any way. */
  datatype Sightings = One(ad: Advertisement) | Both(left: Sightings, right: Sightings)

  function MergedVerdict(rules: seq<Rule>, s: Sightings): Outcome {
    match s
    case One(ad) => Classify(rules, ad)
    case Both(l, r) => Merging(MergedVerdict(rules, l), MergedVerdict(rules, r))
  }

  ghost function RulesSeen(rules: seq<Rule>, s: Sightings): set<Rule> {
    match s
    case One(ad) => RulesMatching(rules, ad)
    case Both(l, r) => RulesSeen(rules, l) + RulesSeen(rules, r)
  }

  lemma {:induction false} SeenAreRules(rules: seq<Rule>, s: Sightings)
    ensures forall r :: r in RulesSeen(rules, s) ==> r in rules
  {
    if s.Both? {
      SeenAreRules(rules, s.left);
      SeenAreRules(rules, s.right);
    }
  }

  lemma SubsetHasDistinctIds(rules: seq<Rule>, s: set<Rule>)
    requires (forall r :: r in s ==> r in rules) && forall i, j :: 0 <= i < j < |rules| ==> rules[i].id != rules[j].id
    ensures DistinctIds(s)
  {
    forall r, q | r in s && q in s && r.id == q.id ensures r == q {
      var i :| 0 <= i < |rules| && rules[i] == r;
      var j :| 0 <= j < |rules| && rules[j] == q;
    }
  }

  lemma {:induction false} MergedDescribes(rules: seq<Rule>, s: Sightings)
    requires Sorted(rules) && forall i, j :: 0 <= i < j < |rules| ==> rules[i].id != rules[j].id
    ensures Describes(MergedVerdict(rules, s), RulesSeen(rules, s))
  {
    match s
    case One(ad) => ClassifyDescribesMatches(rules, ad);
    case Both(l, r) =>
      MergedDescribes(rules, l);
      MergedDescribes(rules, r);
      SeenAreRules(rules, s);
      SubsetHasDistinctIds(rules, RulesSeen(rules, l) + RulesSeen(rules, r));
      MergeDescribesUnion(MergedVerdict(rules, l), RulesSeen(rules, l), MergedVerdict(rules, r), RulesSeen(rules, r));
  }

  /** An accepted registry holds its rules in order, under distinct identifiers. */
  lemma RegistryIsSorted(registry: Registry)
    requires registry.Valid()
    ensures Sorted(registry.rules)
    ensures forall i, j :: 0 <= i < j < |registry.rules| ==>
      var a, b := registry.rules[i], registry.rules[j];
      a.priority > b.priority || (a.priority == b.priority && a.id < b.id)
    ensures forall i, j :: 0 <= i < j < |registry.rules| ==> registry.rules[i].id != registry.rules[j].id
  {
    var rules, declared := registry.rules, registry.declared;
    assert declared[..|declared|] == declared;
    forall i, j | 0 <= i < j < |rules| ensures rules[i].id != rules[j].id {
      assert rules[i] in rules && rules[j] in rules;
      var k :| 0 <= k < |declared| && declared[k] == rules[i];
      var l :| 0 <= l < |declared| && declared[l] == rules[j];
      assert Precedes(rules[i], rules[j]);
    }
  }

  /** Over one accepted registry, merging the classifications of any sightings in any grouping and order
      is the verdict of the union of the rules they matched. */
  lemma MergeIsVerdictOfUnion(registry: Registry, s: Sightings)
    requires registry.Valid()
    ensures Describes(MergedVerdict(registry.rules, s), RulesSeen(registry.rules, s))
  {
    RegistryIsSorted(registry);
    MergedDescribes(registry.rules, s);
  }

  /** So two ways of collecting sightings that matched the same rules reach the same verdict. */
  lemma GroupingIrrelevant(registry: Registry, s: Sightings, t: Sightings)
    requires registry.Valid() && RulesSeen(registry.rules, s) == RulesSeen(registry.rules, t)
    ensures MergedVerdict(registry.rules, s) == MergedVerdict(registry.rules, t)
  {
    var rules := registry.rules;
    MergeIsVerdictOfUnion(registry, s);
    MergeIsVerdictOfUnion(registry, t);
    VerdictIsUnique(MergedVerdict(rules, s), MergedVerdict(rules, t), RulesSeen(rules, s));
  }
}
