/** What the classifier's tables mean: when a rule matches, what the registry complains about, and how much
    of a payload is kept. */
module RuleMeaning {
  import opened Wrappers
  import opened Classifier

  // ---------- matching ----------

  /** The field names the company, low byte first, and goes on with the whole prefix. */
  ghost predicate Carries(s: Signature, raw: Bytes) {
    s.prefix != [] && exists tail: Bytes :: Begins(s, raw, tail)
  }

  ghost predicate Begins(s: Signature, raw: Bytes, tail: Bytes) {
    |raw| >= 2 && raw[0] as nat == s.company % 256 && raw[1] as nat == s.company / 256 && raw[2..] == s.prefix + tail
  }

  lemma CompanyBytes(raw: Bytes, company: nat)
    requires |raw| >= 2
    ensures CompanyOf(raw) == company <==> raw[0] as nat == company % 256 && raw[1] as nat == company / 256
  {
    TwoDigits(raw[0] as nat, raw[1] as nat, company);
  }

  lemma TwoDigits(low: nat, high: nat, n: nat)
    requires low < 256
    ensures low + 256 * high == n <==> low == n % 256 && high == n / 256
  {
  }

  lemma SignatureMeans(s: Signature, raw: Bytes)
    requires |raw| >= 2
    ensures SignatureMatches(s, Received(raw).value) <==> Carries(s, raw)
  {
    var data, k := Received(raw).value, |s.prefix|;
    CompanyBytes(raw, s.company);
    if SignatureMatches(s, data) {
      Halves(data.payload, k);
      assert Begins(s, raw, data.payload[k..]);
    }
    forall tail: Bytes | s.prefix != [] && Begins(s, raw, tail) ensures SignatureMatches(s, data) {
      Front(data.payload, s.prefix, tail);
    }
  }

  lemma Halves(payload: Bytes, k: nat)
    requires k <= |payload|
    ensures payload == payload[..k] + payload[k..]
  {
  }

  lemma Front(payload: Bytes, prefix: Bytes, tail: Bytes)
    requires payload == prefix + tail
    ensures |payload| >= |prefix| && payload[..|prefix|] == prefix
  {
  }

  /** A rule matches when each kind of evidence it names is there: one of its services, and its signature;
      a rule that names none never does. */
  lemma MatchMeans(r: Rule, services: set<nat>, raw: Bytes)
    ensures Matches(r, Advertisement(services, Received(raw))) <==>
      (r.services == {} || exists s :: s in r.services && s in services) &&
      (r.signature.None? || Carries(r.signature.value, raw)) && (r.services != {} || r.signature.Some?)
  {
    if |raw| >= 2 && r.signature.Some? { SignatureMeans(r.signature.value, raw); }
    if r.services * services != {} {
      var s :| s in r.services * services;
      assert s in r.services && s in services;
    }
    forall s | s in r.services && s in services ensures r.services * services != {} {
      assert s in r.services * services;
    }
  }

  // ---------- how much is kept ----------

  ghost predicate DeclaresPrefix(rules: seq<Rule>, company: nat, k: nat) {
    exists i :: 0 <= i < |rules| && rules[i].signature.Some? && rules[i].signature.value.company == company &&
      |rules[i].signature.value.prefix| == k
  }

  /** The length kept is that of a prefix some rule declares for the company, and of none longer. */
  lemma {:induction false} LongestIsDeclared(rules: seq<Rule>, company: nat)
    ensures LongestPrefix(rules, company) == 0 || DeclaresPrefix(rules, company, LongestPrefix(rules, company))
    ensures forall k: nat :: DeclaresPrefix(rules, company, k) ==> k <= LongestPrefix(rules, company)
  {
    if rules != [] {
      var n := |rules| - 1;
      LongestIsDeclared(rules[..n], company);
      var k := LongestPrefix(rules[..n], company);
      if DeclaresPrefix(rules[..n], company, k) {
        var i :| 0 <= i < n && rules[..n][i].signature.Some? && rules[..n][i].signature.value.company == company &&
          |rules[..n][i].signature.value.prefix| == k;
        assert rules[i].signature.Some?;
      }
    }
    forall k: nat | DeclaresPrefix(rules, company, k) ensures k <= LongestPrefix(rules, company) {
      var i :| 0 <= i < |rules| && rules[i].signature.Some? && rules[i].signature.value.company == company &&
        |rules[i].signature.value.prefix| == k;
      LongestIsLongest(rules, i);
    }
  }

  // ---------- verdicts ----------

  /** The verdict on some rules is that of w when each of the others has a lower priority, or the same one and
      the same category and a lower confidence, or the same confidence too and a later identifier. */
  lemma WinnerMeans(rules: set<Rule>, w: Rule)
    ensures Wins(rules, w) <==>
      (w in rules && forall r :: r in rules && r != w ==>
        r.priority < w.priority ||
        (r.priority == w.priority && r.category == w.category &&
         (r.confidence < w.confidence || (r.confidence == w.confidence && w.id < r.id))))
  {
  }

  // ---------- complaints ----------

  predicate SameCriteria(r: Rule, q: Rule) { r.services == q.services && r.signature == q.signature }

  /** The checks on one rule in their order; what the last one complains about is below. */
  ghost function Checks(r: Rule, earlier: seq<Rule>): seq<(bool, Option<Fault>)> {
    [(r.named, Some(EmptyRuleIdentifier)),
     (forall i :: 0 <= i < |earlier| ==> earlier[i].id != r.id, Some(DuplicateRuleIdentifier(r.id))),
     (r.category in {Helium, Wifi, Ev}, Some(ReservedCategory(r.id))),
     (r.sourced, Some(EmptySourceReference(r.id))),
     (r.priority > -1, Some(NegativePriority(r.id))),
     (r.services != {} || r.signature != None, Some(MissingSignature(r.id))),
     (forall company :: r.signature != Some(Signature(company, [])), Some(EmptyPrefix(r.id)))]
  }

  lemma IdsAre(r: Rule, earlier: seq<Rule>)
    ensures r.id in Ids(earlier) <==> exists i :: 0 <= i < |earlier| && earlier[i].id == r.id
  {
  }

  lemma PrefixIsEmpty(r: Rule)
    ensures (r.signature.Some? && r.signature.value.prefix == []) <==>
      exists company :: r.signature == Some(Signature(company, []))
  {
    if r.signature.Some? && r.signature.value.prefix == [] {
      assert r.signature == Some(Signature(r.signature.value.company, []));
    }
  }

  /** A rule is complained about for the first check it fails, and after these for another rule's criteria. */
  lemma FaultIsFirstCheck(r: Rule, earlier: seq<Rule>)
    ensures var checks := Checks(r, earlier);
      FaultOf(r, earlier) == FirstFailing(checks, FaultOf(r, earlier)) &&
      (FirstFalse(checks) == 7 ==>
        (FaultOf(r, earlier).None? <==> forall i :: 0 <= i < |earlier| ==> !SameCriteria(earlier[i], r)))
  {
    IdsAre(r, earlier);
    PrefixIsEmpty(r);
    assert r.category in {Helium, Wifi, Ev} <==> r.category != Unknown;
    CriteriaAre(r, earlier);
    FirstOfTen(Checks(r, earlier), FaultOf(r, earlier));
  }

  lemma CriteriaAre(r: Rule, earlier: seq<Rule>)
    ensures Owner(earlier, CriteriaOf(r)).None? <==> forall i :: 0 <= i < |earlier| ==> !SameCriteria(earlier[i], r)
  {
    assert forall i :: 0 <= i < |earlier| ==>
      (SameCriteria(earlier[i], r) <==> CriteriaOf(earlier[i]) == CriteriaOf(r));
  }

  /** The complaint about equal criteria names both rules, the smaller identifier first. */
  lemma DuplicateNamesBoth(r: Rule, earlier: seq<Rule>, a: Id, b: Id)
    requires FaultOf(r, earlier) == Some(DuplicateSignature(a, b))
    ensures a < b && (a == r.id || b == r.id)
    ensures exists i :: 0 <= i < |earlier| && SameCriteria(earlier[i], r) && earlier[i].id in {a, b} - {r.id}
  {
    var i := OwnerIs(earlier, CriteriaOf(r));
    assert earlier[i].id in Ids(earlier);
  }

  lemma {:induction false} OwnerIs(rules: seq<Rule>, c: Criteria) returns (i: nat)
    requires Owner(rules, c).Some?
    ensures i < |rules| && CriteriaOf(rules[i]) == c && Owner(rules, c) == Some(rules[i].id)
  {
    i := |rules| - 1;
    if CriteriaOf(rules[i]) != c { i := OwnerIs(rules[..i], c); }
  }

  ghost predicate FirstAt(rules: seq<Rule>, i: nat, fault: Option<Fault>) {
    i < |rules| && fault.Some? && FaultAt(rules, i) == fault && forall j :: 0 <= j < i ==> FaultAt(rules, j).None?
  }

  /** The registry's complaint is the one about its first faulty rule. */
  lemma {:induction false} RegistryComplainsFirst(rules: seq<Rule>)
    ensures if FirstFault(rules).None? then Clean(rules) else exists i :: FirstAt(rules, i, FirstFault(rules))
  {
    if rules != [] {
      var n := |rules| - 1;
      RegistryComplainsFirst(rules[..n]);
      if FirstFault(rules[..n]).Some? {
        var i :| FirstAt(rules[..n], i, FirstFault(rules[..n]));
        LaterToo(rules, i, FirstFault(rules));
      } else {
        CleanNext(rules);
      }
    }
  }

  ghost predicate Clean(rules: seq<Rule>) {
    forall j :: 0 <= j < |rules| ==> FaultAt(rules, j).None?
  }

  /** What is said about the rule at i, after those before it. */
  function FaultAt(rules: seq<Rule>, i: nat): Option<Fault>
    requires i < |rules|
  {
    FaultOf(rules[i], rules[..i])
  }

  lemma FrontFaults(rules: seq<Rule>, i: nat)
    requires i < |rules| - 1
    ensures FaultAt(rules[..|rules| - 1], i) == FaultAt(rules, i)
  {
    assert rules[..|rules| - 1][..i] == rules[..i];
  }

  lemma LaterToo(rules: seq<Rule>, i: nat, fault: Option<Fault>)
    requires rules != [] && FirstAt(rules[..|rules| - 1], i, fault)
    ensures FirstAt(rules, i, fault)
  {
    FrontFaults(rules, i);
    forall j | 0 <= j < i ensures FaultAt(rules, j).None? { FrontFaults(rules, j); }
  }

  lemma CleanNext(rules: seq<Rule>)
    requires rules != [] && Clean(rules[..|rules| - 1])
    ensures var fault := FaultAt(rules, |rules| - 1);
      if fault.None? then Clean(rules) else FirstAt(rules, |rules| - 1, fault)
  {
    forall j | 0 <= j < |rules| - 1 ensures FaultAt(rules, j).None? { FrontFaults(rules, j); }
  }
}
