/** What the policy service's tables hold: everything in them can be read off the log of what was
    committed, and whether a call commits depends on the log alone. */
module PolicyLog {
  import opened Wrappers
  import opened Policy

  // ---------- the tables, read off the log ----------

  function Lookup<V>(m: map<Id, V>, x: Id): Option<V> { if x in m then Some(m[x]) else None }

  /** The observation committed under a transcript hash. */
  function ObservationOf(log: seq<Entry>, hash: Id): Option<Pending> {
    if log == [] then None
    else
      var e := log[|log| - 1];
      if e.Observed? && e.p.env.hash == hash then Some(e.p) else ObservationOf(log[..|log| - 1], hash)
  }

  function ValidationOf(log: seq<Entry>, hash: Id): Option<Validation> {
    match ObservationOf(log, hash)
    case None => None
    case Some(p) => Some(Validation(p.env.digest, p.env.nullifier))
  }

  /** The last counter of a device that counts. */
  function DeviceCounter(log: seq<Entry>, device: Id): Option<nat> {
    if log == [] then None
    else
      var e := log[|log| - 1];
      if e.Observed? && e.p.counterEnabled && e.p.env.device == device then Some(e.p.env.third)
      else DeviceCounter(log[..|log| - 1], device)
  }

  /** The key of the first observation with this pseudonym. */
  function OwnerOf(log: seq<Entry>, pseudonym: Id): Option<Id> {
    if log == [] then None
    else
      var rest := OwnerOf(log[..|log| - 1], pseudonym);
      var e := log[|log| - 1];
      if rest.None? && e.Observed? && e.p.env.pseudonym == pseudonym then Some(e.p.env.key) else rest
  }

  /** The transcript relayed for a nullifier. */
  function JobOf(log: seq<Entry>, nullifier: Id): Option<Id> {
    if log == [] then None
    else
      var e := log[|log| - 1];
      if e.Observed? && e.p.env.nullifier == nullifier then Some(e.p.env.hash) else JobOf(log[..|log| - 1], nullifier)
  }

  /** The counter asserted last by a key, 0 when it never asserted. */
  function KeyCounter(log: seq<Entry>, id: Id): nat {
    if log == [] then 0
    else if KeyOf(log[|log| - 1]) == id then CounterOf(log[|log| - 1])
    else KeyCounter(log[..|log| - 1], id)
  }

  function Observations(log: seq<Entry>): nat {
    if log == [] then 0
    else Observations(log[..|log| - 1]) + if log[|log| - 1].Observed? then 1 else 0
  }

  /** One identifier's row in each table. */
  ghost predicate RowsAgree(config: Config, db: Db, log: seq<Entry>, x: Id) {
    && Lookup(db.validations, x) == ValidationOf(log, x)
    && Lookup(db.counters, x) == DeviceCounter(log, x)
    && Lookup(db.owners, x) == OwnerOf(log, x)
    && Lookup(db.jobs, x) == (if config.relay then JobOf(log, x) else None)
    && (x in db.keys ==> db.keys[x].counter == KeyCounter(log, x))
  }

  ghost predicate CountsAgree(config: Config, db: Db, log: seq<Entry>) {
    |db.validations| == Observations(log) && |db.jobs| == if config.relay then Observations(log) else 0
  }

  lemma OneMore(log: seq<Entry>, e: Entry)
    ensures (log + [e])[..|log + [e]| - 1] == log
  {
  }

  lemma CommitAgrees(config: Config, s: State, p: Pending, x: Id)
    requires RowsAgree(config, s.db, s.log, x) && RowsAgree(config, s.db, s.log, p.env.pseudonym)
    requires Previous(s.db, p.env).None? && Commit(config, s.db, p).code == Validated
    ensures RowsAgree(config, Commit(config, s.db, p).db, s.log + [Observed(p)], x)
  {
    OneMore(s.log, Observed(p));
  }

  lemma AssertAgrees(config: Config, db: Db, log: seq<Entry>, e: Entry, x: Id)
    requires RowsAgree(config, db, log, x) && !e.Observed? && KeyOf(e) in db.keys
    ensures RowsAgree(config, Asserted(db, KeyOf(e), CounterOf(e)), log + [e], x)
  {
    OneMore(log, e);
  }

  lemma StepAgrees(config: Config, s: State, event: Event, x: Id)
    requires forall y :: RowsAgree(config, s.db, s.log, y)
    requires KeysIncrease(s.db.keys, s.log)
    ensures RowsAgree(config, Step(config, s, event).db, Step(config, s, event).log, x)
  {
    match event
    case AfterProof(i) =>
      if i < |s.calls| && s.calls[i].Proving? {
        var p := s.calls[i].p;
        if Previous(s.db, p.env).None? && Commit(config, s.db, p).code == Validated {
          assert RowsAgree(config, s.db, s.log, p.env.pseudonym);
          CommitAgrees(config, s, p, x);
        }
      }
    case FinishClaim(i) =>
      if i < |s.calls| && s.calls[i].Claiming? && MayAssert(s.db, s.calls[i].id, s.calls[i].key, true) {
        var c := s.calls[i];
        AssertAgrees(config, s.db, s.log, Claimed(c.pseudonym, c.id, c.asserted), x);
      }
    case FinishAssertion(i) =>
      if i < |s.calls| && s.calls[i].Asserting? && MayAssert(s.db, s.calls[i].id, s.calls[i].key, false) {
        AssertAgrees(config, s.db, s.log, Refreshed(s.calls[i].id, s.calls[i].asserted), x);
      }
    case Attest(id, _) => if id !in s.db.keys { NeverUsed(s.db.keys, s.log, id); }
    case _ =>
  }

  lemma {:induction false} NeverUsed(keys: map<Id, KeyRow>, log: seq<Entry>, id: Id)
    requires KeysIncrease(keys, log) && id !in keys
    ensures KeyCounter(log, id) == 0
  {
    if log != [] {
      assert KeyOf(log[|log| - 1]) in keys;
      NeverUsed(keys, log[..|log| - 1], id);
    }
  }

  lemma CommitCounts(config: Config, s: State, p: Pending)
    requires CountsAgree(config, s.db, s.log)
    requires Previous(s.db, p.env).None? && Commit(config, s.db, p).code == Validated
    ensures CountsAgree(config, Commit(config, s.db, p).db, s.log + [Observed(p)])
  {
    OneMore(s.log, Observed(p));
  }

  lemma AssertCounts(config: Config, db: Db, log: seq<Entry>, e: Entry)
    requires CountsAgree(config, db, log) && !e.Observed? && KeyOf(e) in db.keys
    ensures CountsAgree(config, Asserted(db, KeyOf(e), CounterOf(e)), log + [e])
  {
    OneMore(log, e);
  }

  lemma StepCounts(config: Config, s: State, event: Event)
    requires CountsAgree(config, s.db, s.log)
    ensures CountsAgree(config, Step(config, s, event).db, Step(config, s, event).log)
  {
    match event
    case AfterProof(i) =>
      if i < |s.calls| && s.calls[i].Proving? {
        var p := s.calls[i].p;
        if Previous(s.db, p.env).None? && Commit(config, s.db, p).code == Validated { CommitCounts(config, s, p); }
      }
    case FinishClaim(i) =>
      if i < |s.calls| && s.calls[i].Claiming? && MayAssert(s.db, s.calls[i].id, s.calls[i].key, true) {
        var c := s.calls[i];
        AssertCounts(config, s.db, s.log, Claimed(c.pseudonym, c.id, c.asserted));
      }
    case FinishAssertion(i) =>
      if i < |s.calls| && s.calls[i].Asserting? && MayAssert(s.db, s.calls[i].id, s.calls[i].key, false) {
        AssertCounts(config, s.db, s.log, Refreshed(s.calls[i].id, s.calls[i].asserted));
      }
    case _ =>
  }

  // ---------- main results, over every interleaving ----------

  /** Every table is what the log says: each validation holds the digest and nullifier of the observation
      committed under its hash, each counter the third counter committed last, each owner the key that
      observed first, each job its transcript, each key its last assertion. */
  lemma {:induction false} TablesAreTheLog(config: Config, events: seq<Event>)
    ensures forall x :: RowsAgree(config, RunOf(config, events).db, RunOf(config, events).log, x)
    ensures CountsAgree(config, RunOf(config, events).db, RunOf(config, events).log)
  {
    if events != [] {
      var front := events[..|events| - 1];
      TablesAreTheLog(config, front);
      RunKeepsInv(config, front);
      forall x ensures RowsAgree(config, RunOf(config, events).db, RunOf(config, events).log, x) {
        StepAgrees(config, RunOf(config, front), events[|events| - 1], x);
      }
      StepCounts(config, RunOf(config, front), events[|events| - 1]);
    }
  }

  lemma {:induction false} FoundIs(log: seq<Entry>, i: nat)
    requires i < |log| && log[i].Observed?
    requires forall j :: 0 <= j < |log| && j != i && log[j].Observed? ==> log[j].p.env.hash != log[i].p.env.hash
    ensures ObservationOf(log, log[i].p.env.hash) == Some(log[i].p)
  {
    if i < |log| - 1 {
      assert log[|log| - 1].Observed? ==> log[|log| - 1].p.env.hash != log[i].p.env.hash;
      FoundIs(log[..|log| - 1], i);
    }
  }

  /** What an event logs: nothing, or one more entry. */
  lemma LoggedByStep(config: Config, s: State, event: Event)
    ensures var s' := Step(config, s, event);
      s'.log == s.log ||
      (|s'.log| == |s.log| + 1 && s'.log[..|s.log|] == s.log &&
       (s'.log[|s.log|].Observed? ==>
          Previous(s.db, s'.log[|s.log|].p.env).None? && !NullifierTaken(s.db, s'.log[|s.log|].p.env.nullifier)))
  {
  }

  /** No transcript and no nullifier is committed twice. */
  lemma {:induction false} CommittedOnce(config: Config, events: seq<Event>, i: nat, j: nat)
    requires var log := RunOf(config, events).log; i < j < |log| && log[i].Observed? && log[j].Observed?
    ensures var log := RunOf(config, events).log;
      log[i].p.env.hash != log[j].p.env.hash && log[i].p.env.nullifier != log[j].p.env.nullifier
    decreases |events|, 0
  {
    var front := events[..|events| - 1];
    var s := RunOf(config, front);
    LoggedByStep(config, s, events[|events| - 1]);
    if j < |s.log| {
      CommittedOnce(config, front, i, j);
    } else {
      CommittedRow(config, front, i);
    }
  }

  /** Each committed observation has its row, with its own digest and nullifier. */
  lemma {:induction false} CommittedRow(config: Config, events: seq<Event>, i: nat)
    requires i < |RunOf(config, events).log| && RunOf(config, events).log[i].Observed?
    ensures var s := RunOf(config, events);
      var env := s.log[i].p.env;
      env.hash in s.db.validations && s.db.validations[env.hash] == Validation(env.digest, env.nullifier)
    decreases |events|, 1
  {
    var s := RunOf(config, events);
    forall j | 0 <= j < |s.log| && j != i && s.log[j].Observed? ensures s.log[j].p.env.hash != s.log[i].p.env.hash {
      if i < j { CommittedOnce(config, events, i, j); } else { CommittedOnce(config, events, j, i); }
    }
    FoundIs(s.log, i);
    TablesAreTheLog(config, events);
    assert RowsAgree(config, s.db, s.log, s.log[i].p.env.hash);
  }

  /** Receiving a committed transcript again changes nothing, at the start of a call and in its final
      transaction: it is answered as validated for the same envelope, and as a used nullifier otherwise. */
  lemma RepeatedEnvelope(config: Config, events: seq<Event>, i: nat, q: Pending)
    requires i < |RunOf(config, events).log| && RunOf(config, events).log[i].Observed?
    requires q.env.hash == RunOf(config, events).log[i].p.env.hash
    ensures var s := RunOf(config, events);
      var answer := if q.env.digest == s.log[i].p.env.digest then Validated else Nullifier;
      Commit(config, s.db, q) == Outcome(s.db, answer) && Previous(s.db, q.env) == Some(answer)
  {
    CommittedRow(config, events, i);
  }

  // ---------- when a call commits ----------

  ghost predicate Logged(log: seq<Entry>, hash: Id) {
    exists i :: 0 <= i < |log| && log[i].Observed? && log[i].p.env.hash == hash
  }

  ghost predicate Used(log: seq<Entry>, nullifier: Id) {
    exists i :: 0 <= i < |log| && log[i].Observed? && log[i].p.env.nullifier == nullifier
  }

  lemma {:induction false} LoggedIsFound(log: seq<Entry>, hash: Id)
    ensures ObservationOf(log, hash).Some? <==> Logged(log, hash)
  {
    if log != [] {
      var n := |log| - 1;
      LoggedIsFound(log[..n], hash);
      if Logged(log, hash) {
        var i :| 0 <= i < |log| && log[i].Observed? && log[i].p.env.hash == hash;
        if i < n { assert log[..n][i] == log[i]; }
      }
      if Logged(log[..n], hash) {
        var i :| 0 <= i < n && log[..n][i].Observed? && log[..n][i].p.env.hash == hash;
        assert log[i] == log[..n][i];
      }
    }
  }

  lemma TakenIsUsed(config: Config, events: seq<Event>, nullifier: Id)
    ensures NullifierTaken(RunOf(config, events).db, nullifier) <==> Used(RunOf(config, events).log, nullifier)
  {
    var s := RunOf(config, events);
    TablesAreTheLog(config, events);
    if NullifierTaken(s.db, nullifier) {
      var h :| h in s.db.validations && s.db.validations[h].nullifier == nullifier;
      assert RowsAgree(config, s.db, s.log, h);
      WhereFound(s.log, h);
    }
    if Used(s.log, nullifier) {
      var i :| 0 <= i < |s.log| && s.log[i].Observed? && s.log[i].p.env.nullifier == nullifier;
      CommittedRow(config, events, i);
    }
  }

  lemma {:induction false} WhereFound(log: seq<Entry>, hash: Id)
    requires ObservationOf(log, hash).Some?
    ensures exists i :: 0 <= i < |log| && log[i] == Observed(ObservationOf(log, hash).value)
  {
    var n := |log| - 1;
    if log[n].Observed? && log[n].p.env.hash == hash {
      assert log[n] == Observed(ObservationOf(log, hash).value);
    } else {
      WhereFound(log[..n], hash);
      var i :| 0 <= i < n && log[..n][i] == Observed(ObservationOf(log, hash).value);
      assert log[i] == log[..n][i];
    }
  }

  /** The checks of the final transaction of a transcript that is new, in order, on the log. */
  ghost function Checks(config: Config, s: State, p: Pending): seq<(bool, Code)> {
    var env, last := p.env, DeviceCounter(s.log, p.env.device);
    [(!Used(s.log, env.nullifier), Nullifier),
     (env.key in s.db.keys && env.key in s.db.enrolled && env.key !in s.db.revoked, Assertion),
     (p.key.counter == KeyCounter(s.log, env.key) && Lookup(s.db.keys, env.key) == Some(p.key), Assertion),
     (p.counterEnabled && last.Some? ==> last.value < env.first, DevCounter),
     (p.counterEnabled ==> env.first < env.second < env.third, DevCounter),
     (Observations(s.log) < config.capacity, Capacity),
     (config.relay ==> Observations(s.log) < config.relayCapacity, Capacity),
     (OwnerOf(s.log, env.pseudonym) in {None, Some(env.key)}, Assertion),
     (config.relay ==> p.payloadValid, Handoff)]
  }

  lemma {:induction false} JobFound(log: seq<Entry>, nullifier: Id)
    ensures JobOf(log, nullifier).Some? ==> Used(log, nullifier)
  {
    if log != [] {
      var n := |log| - 1;
      JobFound(log[..n], nullifier);
      if Used(log[..n], nullifier) {
        var i :| 0 <= i < n && log[..n][i].Observed? && log[..n][i].p.env.nullifier == nullifier;
        assert log[i] == log[..n][i];
      }
      if log[n].Observed? && log[n].p.env.nullifier == nullifier { assert Used(log, nullifier); }
    }
  }

  /** Checks against the tables, in the order of the code. */
  ghost predicate Decides(config: Config, db: Db, p: Pending, checks: seq<(bool, Code)>) {
    |checks| == 9 &&
    var code := Commit(config, db, p).code;
    if !checks[0].0 then code == Nullifier
    else if !checks[1].0 || !checks[2].0 then code == Assertion
    else if !checks[3].0 || !checks[4].0 then code == DevCounter
    else if !checks[5].0 || !checks[6].0 then code == Capacity
    else if !checks[7].0 then code == Assertion
    else if !checks[8].0 then code == Handoff
    else code == Validated
  }

  lemma ChecksDecide(config: Config, s: State, p: Pending)
    requires RowsAgree(config, s.db, s.log, p.env.hash) && RowsAgree(config, s.db, s.log, p.env.device)
    requires RowsAgree(config, s.db, s.log, p.env.pseudonym) && RowsAgree(config, s.db, s.log, p.env.nullifier)
    requires RowsAgree(config, s.db, s.log, p.env.key) && CountsAgree(config, s.db, s.log)
    requires NullifierTaken(s.db, p.env.nullifier) <==> Used(s.log, p.env.nullifier)
    requires ObservationOf(s.log, p.env.hash).None?
    requires JobOf(s.log, p.env.nullifier).Some? ==> Used(s.log, p.env.nullifier)
    ensures Decides(config, s.db, p, Checks(config, s, p))
  {
  }

  /** In every reachable state the final transaction of a new transcript answers with the first of these
      checks that fails, and commits if and only if none does. */
  lemma CommitIsExact(config: Config, events: seq<Event>, p: Pending)
    requires !Logged(RunOf(config, events).log, p.env.hash)
    ensures var s := RunOf(config, events);
      Commit(config, s.db, p).code == FirstFailing(Checks(config, s, p), Validated)
  {
    var s := RunOf(config, events);
    TablesAreTheLog(config, events);
    TakenIsUsed(config, events, p.env.nullifier);
    LoggedIsFound(s.log, p.env.hash);
    JobFound(s.log, p.env.nullifier);
    RowsOf(config, s, p);
    ChecksDecide(config, s, p);
    FirstOfNine(Checks(config, s, p), Commit(config, s.db, p).code);
  }

  lemma FirstOfNine(checks: seq<(bool, Code)>, code: Code)
    requires |checks| == 9 && checks[0].1 == Nullifier && checks[1].1 == checks[2].1 == Assertion
    requires checks[3].1 == checks[4].1 == DevCounter && checks[5].1 == checks[6].1 == Capacity
    requires checks[7].1 == Assertion && checks[8].1 == Handoff
    requires code == if !checks[0].0 then Nullifier
      else if !checks[1].0 || !checks[2].0 then Assertion
      else if !checks[3].0 || !checks[4].0 then DevCounter
      else if !checks[5].0 || !checks[6].0 then Capacity
      else if !checks[7].0 then Assertion
      else if !checks[8].0 then Handoff
      else Validated
    ensures code == FirstFailing(checks, Validated)
  {
    FirstFailingIs(checks, Validated);
  }

  lemma RowsOf(config: Config, s: State, p: Pending)
    requires forall x :: RowsAgree(config, s.db, s.log, x)
    ensures RowsAgree(config, s.db, s.log, p.env.hash) && RowsAgree(config, s.db, s.log, p.env.device)
    ensures RowsAgree(config, s.db, s.log, p.env.pseudonym) && RowsAgree(config, s.db, s.log, p.env.nullifier)
    ensures RowsAgree(config, s.db, s.log, p.env.key)
  {
  }

  // ---------- when a call goes on ----------

  /** The key may be used: attested, enrolled with class 1 and not revoked. */
  predicate Usable(db: Db, id: Id) { id in db.keys && id in db.enrolled && id !in db.revoked }

  /** Of the checks between the snapshot and the proof: a new transcript, device counters that rise from the
      last one committed, a usable key, and an assertion above everything that key has asserted. */
  ghost predicate SnapshotPasses(s: State, env: Envelope, counterEnabled: bool, asserted: nat) {
    !Logged(s.log, env.hash) && Usable(s.db, env.key) && asserted > KeyCounter(s.log, env.key) &&
    (counterEnabled ==>
      (DeviceCounter(s.log, env.device).Some? ==> DeviceCounter(s.log, env.device).value < env.first) &&
      env.first < env.second < env.third)
  }

  /** In every reachable state a receive goes on to its proof if and only if these pass; it remembers the
      key's row as it stands, and nothing is written yet. */
  lemma ReceiveGoesOn(config: Config, events: seq<Event>, i: nat, asserted: nat, payloadValid: bool)
    requires i < |RunOf(config, events).calls| && RunOf(config, events).calls[i].Receive?
    ensures var s := RunOf(config, events);
      var env, enabled, rest := s.calls[i].env, s.calls[i].counterEnabled, Without(s.calls, i);
      var s' := Step(config, s, AfterSnapshot(i, asserted, payloadValid));
      s' == s.(calls := if SnapshotPasses(s, env, enabled, asserted)
                        then rest + [Proving(Pending(env, s.db.keys[env.key], asserted, enabled, payloadValid))]
                        else rest)
  {
    var s := RunOf(config, events);
    TablesAreTheLog(config, events);
    RowsFor(config, s, s.calls[i].env);
    LoggedIsFound(s.log, s.calls[i].env.hash);
  }

  lemma RowsFor(config: Config, s: State, env: Envelope)
    requires forall x :: RowsAgree(config, s.db, s.log, x)
    ensures RowsAgree(config, s.db, s.log, env.hash) && RowsAgree(config, s.db, s.log, env.device)
    ensures RowsAgree(config, s.db, s.log, env.key)
  {
  }

  /** A claim starts for the pseudonym's owner only, with a usable key and a new assertion. */
  lemma ClaimStarts(config: Config, events: seq<Event>, pseudonym: Id, id: Id, asserted: nat)
    ensures var s := RunOf(config, events);
      var s' := Step(config, s, BeginClaim(pseudonym, id, asserted));
      s' == if OwnerOf(s.log, pseudonym) == Some(id) && Usable(s.db, id) && asserted > KeyCounter(s.log, id)
            then s.(calls := s.calls + [Claiming(pseudonym, id, s.db.keys[id], asserted)]) else s
  {
    var s := RunOf(config, events);
    TablesAreTheLog(config, events);
    assert RowsAgree(config, s.db, s.log, pseudonym) && RowsAgree(config, s.db, s.log, id);
  }

  /** It is committed if and only if the key is still usable and its row is the one it read. */
  lemma ClaimCommits(config: Config, events: seq<Event>, i: nat)
    requires i < |RunOf(config, events).calls| && RunOf(config, events).calls[i].Claiming?
    ensures var s := RunOf(config, events);
      var c, s' := s.calls[i], Step(config, s, FinishClaim(i));
      s'.log == s.log + if Usable(s.db, c.id) && s.db.keys[c.id] == c.key
                        then [Claimed(c.pseudonym, c.id, c.asserted)] else []
  {
  }

  /** An enrollment assertion needs neither enrollment nor an unrevoked key, but an unchanged counter. */
  lemma AssertionCommits(config: Config, events: seq<Event>, i: nat)
    requires i < |RunOf(config, events).calls| && RunOf(config, events).calls[i].Asserting?
    ensures var s := RunOf(config, events);
      var c, s' := s.calls[i], Step(config, s, FinishAssertion(i));
      s'.log == s.log + if c.id in s.db.keys && KeyCounter(s.log, c.id) == c.key.counter
                        then [Refreshed(c.id, c.asserted)] else []
  {
    var s := RunOf(config, events);
    TablesAreTheLog(config, events);
    assert RowsAgree(config, s.db, s.log, s.calls[i].id);
  }

  // ---------- keys ----------

  predicate Attested(events: seq<Event>, id: Id) {
    exists i :: 0 <= i < |events| && events[i].Attest? && events[i].id == id
  }

  predicate Enrolled(events: seq<Event>, id: Id) {
    exists i, j :: 0 <= i < j < |events| && events[i].Attest? && events[i].id == id && events[j] == Enroll(id, true)
  }

  predicate Revoked(events: seq<Event>, id: Id) {
    exists i :: 0 <= i < |events| && events[i] == Revoke(id)
  }

  lemma KeysNext(events: seq<Event>, id: Id)
    requires events != []
    ensures var front, last := events[..|events| - 1], events[|events| - 1];
      (Attested(events, id) <==> Attested(front, id) || (last.Attest? && last.id == id)) &&
      (Enrolled(events, id) <==> Enrolled(front, id) || (Attested(front, id) && last == Enroll(id, true))) &&
      (Revoked(events, id) <==> Revoked(front, id) || last == Revoke(id))
  {
    var n := |events| - 1;
    var front, last := events[..n], events[n];
    if Attested(front, id) {
      var i :| 0 <= i < n && front[i].Attest? && front[i].id == id;
      assert events[i] == front[i];
    }
    if Enrolled(front, id) {
      var i, j :| 0 <= i < j < n && front[i].Attest? && front[i].id == id && front[j] == Enroll(id, true);
      assert events[i] == front[i] && events[j] == front[j];
    }
    if Revoked(front, id) {
      var i :| 0 <= i < n && front[i] == Revoke(id);
      assert events[i] == front[i];
    }
    if Enrolled(events, id) {
      var i, j :| 0 <= i < j < |events| && events[i].Attest? && events[i].id == id && events[j] == Enroll(id, true);
      assert front[i] == events[i];
      if j < n { assert front[j] == events[j]; }
    }
  }

  ghost predicate KeysFollow(s: State, s': State, event: Event, id: Id) {
    (id in s'.db.keys <==> id in s.db.keys || (event.Attest? && event.id == id)) &&
    (id in s'.db.enrolled <==> id in s.db.enrolled || (id in s.db.keys && event == Enroll(id, true))) &&
    (id in s'.db.revoked <==> id in s.db.revoked || event == Revoke(id))
  }

  lemma CommitKeepsKeys(config: Config, db: Db, p: Pending)
    ensures var db' := Commit(config, db, p).db;
      db'.keys.Keys == db.keys.Keys && db'.enrolled == db.enrolled && db'.revoked == db.revoked
  {
  }

  lemma ProofStep(config: Config, s: State, i: nat, id: Id)
    ensures KeysFollow(s, Step(config, s, AfterProof(i)), AfterProof(i), id)
  {
    if i < |s.calls| && s.calls[i].Proving? { CommitKeepsKeys(config, s.db, s.calls[i].p); }
  }

  lemma KeysStep(config: Config, s: State, event: Event, id: Id)
    ensures KeysFollow(s, Step(config, s, event), event, id)
  {
    if event.AfterProof? { ProofStep(config, s, event.call, id); }
  }

  /** A key is known once it was attested, enrolled once it was enrolled with class 1 after that, and revoked
      once it was revoked. */
  lemma {:induction false} KeysAreEvents(config: Config, events: seq<Event>, id: Id)
    ensures var db := RunOf(config, events).db;
      (id in db.keys <==> Attested(events, id)) && (id in db.enrolled <==> Enrolled(events, id)) &&
      (id in db.revoked <==> Revoked(events, id))
  {
    if events != [] {
      var front, last := events[..|events| - 1], events[|events| - 1];
      KeysAreEvents(config, front, id);
      KeysNext(events, id);
      KeysStep(config, RunOf(config, front), last, id);
    }
  }
}
