/** The observation policy service over the shared database. Validation runs across awaits on a
    stale copy of the key row; only the final transaction decides. Enrollment assertions, payout
    claims and revocations interleave with it freely. */
module Policy {
  import opened Wrappers
  type Id = nat

  /** app_attest_keys: the assertion counter and the public key. */
  datatype KeyRow = KeyRow(counter: nat, pem: Id)
  datatype Validation = Validation(envelope: Id, nullifier: Id)

  /** The tables. enrolled holds the keys enrolled with class 1; jobs maps a nullifier to the
      transcript it relays. */
  datatype Db = Db(keys: map<Id, KeyRow>, enrolled: set<Id>, revoked: set<Id>,
                   validations: map<Id, Validation>, counters: map<Id, nat>,
                   owners: map<Id, Id>, jobs: map<Id, Id>)

  datatype Config = Config(capacity: nat, relay: bool, relayCapacity: nat)

  /** The parts of a parsed envelope the policy looks at; device counters of the three challenges. */
  datatype Envelope = Envelope(hash: Id, digest: Id, key: Id, device: Id, first: nat, second: nat, third: nat,
                               nullifier: Id, pseudonym: Id)

  /** What a receive call carries from its checks to its final transaction: the key row it read and
      the counter of the assertion it verified against that row. */
  datatype Pending = Pending(env: Envelope, key: KeyRow, asserted: nat, counterEnabled: bool, payloadValid: bool)

  datatype Code = Validated | DevCounter | Assertion | Nullifier | Capacity | Handoff
  datatype Outcome = Outcome(db: Db, code: Code)

  // ---------- queries ----------

  function Previous(db: Db, env: Envelope): Option<Code> {
    if env.hash !in db.validations then None
    else if db.validations[env.hash].envelope != env.digest then Some(Nullifier)
    else Some(Validated)
  }

  predicate NullifierTaken(db: Db, nullifier: Id) {
    exists h :: h in db.validations && db.validations[h].nullifier == nullifier
  }

  /** The join behind #key: present, enrolled with class 1 and not revoked. */
  function Key(db: Db, id: Id): Option<KeyRow> {
    if id in db.keys && id in db.enrolled && id !in db.revoked then Some(db.keys[id]) else None
  }

  predicate CountersFresh(db: Db, env: Envelope) {
    && (env.device in db.counters ==> env.first > db.counters[env.device])
    && env.first < env.second < env.third
  }

  // ---------- the final transaction of receive ----------

  /** The checks made before anything is written. */
  function Refusal(config: Config, db: Db, p: Pending): Option<Code> {
    var env := p.env;
    if Previous(db, env).Some? then Previous(db, env)
    else if NullifierTaken(db, env.nullifier) then Some(Nullifier)
    else if Key(db, env.key) != Some(p.key) then Some(Assertion)
    else if p.counterEnabled && !CountersFresh(db, env) then Some(DevCounter)
    else if |db.validations| >= config.capacity then Some(Capacity)
    else if config.relay && |db.jobs| >= config.relayCapacity then Some(Capacity)
    else None
  }

  function Commit(config: Config, db: Db, p: Pending): Outcome {
    var env := p.env;
    if Refusal(config, db, p).Some? then Outcome(db, Refusal(config, db, p).value)
    else if env.pseudonym in db.owners && db.owners[env.pseudonym] != env.key then Outcome(db, Assertion)
    else if config.relay && (!p.payloadValid || env.nullifier in db.jobs) then Outcome(db, Handoff)
    else Outcome(db.(keys := db.keys[env.key := p.key.(counter := p.asserted)],
                     counters := if p.counterEnabled then db.counters[env.device := env.third] else db.counters,
                     validations := db.validations[env.hash := Validation(env.digest, env.nullifier)],
                     owners := db.owners[env.pseudonym := env.key],
                     jobs := if config.relay then db.jobs[env.nullifier := env.hash] else db.jobs), Validated)
  }

  /** The database the services share, written in place inside transactions. */
  class Store {
    const config: Config
    var keys: map<Id, KeyRow>
    var enrolled: set<Id>
    var revoked: set<Id>
    var validations: map<Id, Validation>
    var counters: map<Id, nat>
    var owners: map<Id, Id>
    var jobs: map<Id, Id>

    function Abs(): Db reads this {
      Db(keys, enrolled, revoked, validations, counters, owners, jobs)
    }

    constructor (config: Config)
      ensures this.config == config && Abs() == Empty()
    {
      this.config := config;
      keys, enrolled, revoked, validations, counters, owners, jobs := map[], {}, {}, map[], map[], map[], map[];
    }

    method Rollback(saved: Db)
      modifies this
      ensures Abs() == saved
    {
      keys, enrolled, revoked := saved.keys, saved.enrolled, saved.revoked;
      validations, counters, owners, jobs := saved.validations, saved.counters, saved.owners, saved.jobs;
    }

    method Refuse(p: Pending) returns (code: Option<Code>)
      ensures code == Refusal(config, Abs(), p)
    {
      var env, begin := p.env, Abs();
      var raced := Previous(begin, env);
      if raced.Some? { return raced; }
      if NullifierTaken(begin, env.nullifier) { return Some(Nullifier); }
      if Key(begin, env.key) != Some(p.key) { return Some(Assertion); }
      if p.counterEnabled && !CountersFresh(begin, env) { return Some(DevCounter); }
      if |validations| >= config.capacity { return Some(Capacity); }
      if config.relay && |jobs| >= config.relayCapacity { return Some(Capacity); }
      return None;
    }

    /** Writes happen before the payout-owner and hand-off checks; a late refusal rolls them back. */
    method CommitObservation(p: Pending) returns (code: Code)
      modifies this
      ensures Outcome(Abs(), code) == Commit(config, old(Abs()), p)
    {
      var env, begin := p.env, Abs();
      var refusal := Refuse(p);
      if refusal.Some? { return refusal.value; }
      keys := keys[env.key := p.key.(counter := p.asserted)];
      if p.counterEnabled { counters := counters[env.device := env.third]; }
      validations := validations[env.hash := Validation(env.digest, env.nullifier)];
      if env.pseudonym in owners && owners[env.pseudonym] != env.key {
        Rollback(begin);
        return Assertion;
      }
      owners := owners[env.pseudonym := env.key];
      if config.relay {
        if !p.payloadValid || env.nullifier in jobs {
          Rollback(begin);
          return Handoff;
        }
        jobs := jobs[env.nullifier := env.hash];
      }
      return Validated;
    }

    /** UPDATE ... WHERE counter = the one read: used by claims (with the key still usable and
        unchanged) and by enrollment assertions (which do not look at revocations). */
    method CommitAssertion(id: Id, read: KeyRow, asserted: nat, claim: bool) returns (ok: bool)
      modifies this`keys
      ensures ok == MayAssert(old(Abs()), id, read, claim)
      ensures Abs() == if ok then Asserted(old(Abs()), id, asserted) else old(Abs())
    {
      if claim && Key(Abs(), id) != Some(read) { return false; }
      if id !in keys || keys[id].counter != read.counter { return false; }
      keys := keys[id := keys[id].(counter := asserted)];
      return true;
    }
  }

  function Empty(): Db { Db(map[], {}, {}, map[], map[], map[], map[]) }

  predicate MayAssert(db: Db, id: Id, read: KeyRow, claim: bool) {
    id in db.keys && db.keys[id].counter == read.counter && (claim ==> Key(db, id) == Some(read))
  }

  function Asserted(db: Db, id: Id, asserted: nat): Db
    requires id in db.keys
  {
    db.(keys := db.keys[id := db.keys[id].(counter := asserted)])
  }

  // ---------- interleavings ----------

  /** Calls suspended at an await, each with the row it read when it last looked. */
  datatype Call =
    | Receive(env: Envelope, counterEnabled: bool)
    | Proving(p: Pending)
    | Claiming(pseudonym: Id, id: Id, key: KeyRow, asserted: nat)
    | Asserting(id: Id, key: KeyRow, asserted: nat)

  /** Every counter update of a key, and every commit, in the order they happened. */
  datatype Entry =
    | Observed(p: Pending)
    | Claimed(pseudonym: Id, id: Id, asserted: nat)
    | Refreshed(id: Id, asserted: nat)

  /** revokedAt: the length of the log when the key was revoked. */
  datatype State = State(db: Db, calls: seq<Call>, log: seq<Entry>, revokedAt: map<Id, nat>)

  datatype Event =
    | Attest(id: Id, pem: Id)
    | Enroll(id: Id, class1: bool)
    | Revoke(id: Id)
    | BeginReceive(env: Envelope, counterEnabled: bool)
    | AfterSnapshot(call: nat, asserted: nat, payloadValid: bool)
    | AfterProof(call: nat)
    | BeginClaim(pseudonym: Id, id: Id, asserted: nat)
    | FinishClaim(call: nat)
    | BeginAssertion(id: Id, asserted: nat)
    | FinishAssertion(call: nat)
    | Drop(call: nat)

  function Without(calls: seq<Call>, i: nat): seq<Call>
    requires i < |calls|
  {
    calls[..i] + calls[i + 1..]
  }

  /** One atomic section between awaits. A section whose checks fail answers its caller and is gone.
      An assertion verifies only with a counter above the row it was checked against. */
  function Step(config: Config, s: State, e: Event): State {
    match e
    case Attest(id, pem) =>
      if id in s.db.keys then s else s.(db := s.db.(keys := s.db.keys[id := KeyRow(0, pem)]))
    case Enroll(id, class1) =>
      if id !in s.db.keys || !class1 then s else s.(db := s.db.(enrolled := s.db.enrolled + {id}))
    case Revoke(id) =>
      if id in s.db.revoked then s
      else s.(db := s.db.(revoked := s.db.revoked + {id}), revokedAt := s.revokedAt[id := |s.log|])
    case BeginReceive(env, counterEnabled) =>
      if Previous(s.db, env).Some? then s else s.(calls := s.calls + [Receive(env, counterEnabled)])
    case AfterSnapshot(i, asserted, payloadValid) =>
      if i >= |s.calls| || !s.calls[i].Receive? then s
      else
        var env, rest := s.calls[i].env, Without(s.calls, i);
        var key := Key(s.db, env.key);
        if Previous(s.db, env).Some? || (s.calls[i].counterEnabled && !CountersFresh(s.db, env)) ||
           key.None? || asserted <= key.value.counter then s.(calls := rest)
        else s.(calls := rest + [Proving(Pending(env, key.value, asserted, s.calls[i].counterEnabled, payloadValid))])
    case AfterProof(i) =>
      if i >= |s.calls| || !s.calls[i].Proving? then s
      else
        var p, rest := s.calls[i].p, Without(s.calls, i);
        var out := Commit(config, s.db, p);
        if Previous(s.db, p.env).Some? || out.code != Validated then s.(calls := rest)
        else s.(db := out.db, calls := rest, log := s.log + [Observed(p)])
    case BeginClaim(pseudonym, id, asserted) =>
      var key := Key(s.db, id);
      if key.None? || pseudonym !in s.db.owners || s.db.owners[pseudonym] != id || asserted <= key.value.counter then s
      else s.(calls := s.calls + [Claiming(pseudonym, id, key.value, asserted)])
    case FinishClaim(i) =>
      if i >= |s.calls| || !s.calls[i].Claiming? then s
      else
        var c, rest := s.calls[i], Without(s.calls, i);
        if !MayAssert(s.db, c.id, c.key, true) then s.(calls := rest)
        else s.(db := Asserted(s.db, c.id, c.asserted), calls := rest,
                log := s.log + [Claimed(c.pseudonym, c.id, c.asserted)])
    case BeginAssertion(id, asserted) =>
      if id !in s.db.keys || asserted <= s.db.keys[id].counter then s
      else s.(calls := s.calls + [Asserting(id, s.db.keys[id], asserted)])
    case FinishAssertion(i) =>
      if i >= |s.calls| || !s.calls[i].Asserting? then s
      else
        var c, rest := s.calls[i], Without(s.calls, i);
        if !MayAssert(s.db, c.id, c.key, false) then s.(calls := rest)
        else s.(db := Asserted(s.db, c.id, c.asserted), calls := rest,
                log := s.log + [Refreshed(c.id, c.asserted)])
    case Drop(i) =>
      if i >= |s.calls| then s else s.(calls := Without(s.calls, i))
  }

  function RunOf(config: Config, events: seq<Event>): State {
    if events == [] then State(Empty(), [], [], map[])
    else Step(config, RunOf(config, events[..|events| - 1]), events[|events| - 1])
  }

  // ---------- the invariant ----------

  function KeyOf(e: Entry): Id {
    match e
    case Observed(p) => p.env.key
    case Claimed(_, id, _) => id
    case Refreshed(id, _) => id
  }

  function CounterOf(e: Entry): nat {
    match e
    case Observed(p) => p.asserted
    case Claimed(_, _, a) => a
    case Refreshed(_, a) => a
  }

  predicate Counted(e: Entry) { e.Observed? && e.p.counterEnabled }

  ghost predicate CallsOk(calls: seq<Call>) {
    forall c :: c in calls ==>
      match c
      case Receive(_, _) => true
      case Proving(p) => p.asserted > p.key.counter
      case Claiming(_, _, key, asserted) => asserted > key.counter
      case Asserting(_, key, asserted) => asserted > key.counter
  }

  ghost predicate ClaimsOwned(db: Db, calls: seq<Call>) {
    forall c :: c in calls && c.Claiming? ==> c.pseudonym in db.owners && db.owners[c.pseudonym] == c.id
  }

  /** Assertion counters: the row holds the newest, and each update is above all earlier ones. */
  ghost predicate KeysIncrease(keys: map<Id, KeyRow>, log: seq<Entry>) {
    && (forall i :: 0 <= i < |log| ==> KeyOf(log[i]) in keys && CounterOf(log[i]) <= keys[KeyOf(log[i])].counter)
    && (forall i, j :: 0 <= i < j < |log| && KeyOf(log[i]) == KeyOf(log[j]) ==> CounterOf(log[i]) < CounterOf(log[j]))
  }

  ghost predicate DevicesIncrease(counters: map<Id, nat>, log: seq<Entry>) {
    && (forall i :: 0 <= i < |log| && Counted(log[i]) ==> Below(counters, log[i].p.env))
    && (forall i, j :: 0 <= i < j < |log| && Counted(log[i]) && Counted(log[j]) &&
                       log[i].p.env.device == log[j].p.env.device ==>
         log[i].p.env.third < log[j].p.env.first)
  }

  ghost predicate Below(counters: map<Id, nat>, env: Envelope) {
    env.device in counters && env.first < env.second < env.third <= counters[env.device]
  }

  ghost predicate NoUseAfterRevocation(revoked: set<Id>, revokedAt: map<Id, nat>, log: seq<Entry>) {
    && revokedAt.Keys == revoked && (forall k :: k in revokedAt ==> revokedAt[k] <= |log|)
    && (forall i :: 0 <= i < |log| && !log[i].Refreshed? && KeyOf(log[i]) in revokedAt ==> i < revokedAt[KeyOf(log[i])])
  }

  ghost predicate OwnersFixed(owners: map<Id, Id>, log: seq<Entry>) {
    forall i :: 0 <= i < |log| ==>
      match log[i]
      case Observed(p) => p.env.pseudonym in owners && owners[p.env.pseudonym] == p.env.key
      case Claimed(pseudonym, id, _) => pseudonym in owners && owners[pseudonym] == id
      case Refreshed(_, _) => true
  }

  ghost predicate NullifiersUnique(validations: map<Id, Validation>) {
    forall h, k :: h in validations && k in validations && validations[h].nullifier == validations[k].nullifier ==>
      h == k
  }

  /** One job per validation and one validation per job. */
  ghost predicate JobsMatch(validations: map<Id, Validation>, jobs: map<Id, Id>) {
    && (forall h :: h in validations ==> validations[h].nullifier in jobs && jobs[validations[h].nullifier] == h)
    && (forall n :: n in jobs ==> jobs[n] in validations && validations[jobs[n]].nullifier == n)
  }

  ghost predicate Inv(config: Config, s: State) {
    && CallsOk(s.calls) && ClaimsOwned(s.db, s.calls)
    && KeysIncrease(s.db.keys, s.log)
    && DevicesIncrease(s.db.counters, s.log)
    && NoUseAfterRevocation(s.db.revoked, s.revokedAt, s.log)
    && OwnersFixed(s.db.owners, s.log)
    && NullifiersUnique(s.db.validations)
    && (if config.relay then JobsMatch(s.db.validations, s.db.jobs) else s.db.jobs == map[])
    && |s.db.validations| <= config.capacity
  }

  lemma WithoutSubset(calls: seq<Call>, i: nat)
    requires i < |calls|
    ensures forall c :: c in Without(calls, i) ==> c in calls
  {
  }

  lemma KeyUpdated(keys: map<Id, KeyRow>, log: seq<Entry>, e: Entry, row: KeyRow)
    requires KeysIncrease(keys, log) && KeyOf(e) in keys
    requires keys[KeyOf(e)].counter < CounterOf(e) == row.counter
    ensures KeysIncrease(keys[KeyOf(e) := row], log + [e])
  {
  }

  lemma DeviceUpdated(counters: map<Id, nat>, log: seq<Entry>, p: Pending)
    requires DevicesIncrease(counters, log)
    requires p.counterEnabled ==>
      (p.env.device in counters ==> p.env.first > counters[p.env.device]) && p.env.first < p.env.second < p.env.third
    ensures DevicesIncrease(if p.counterEnabled then counters[p.env.device := p.env.third] else counters,
                            log + [Observed(p)])
  {
    forall i | 0 <= i < |log| && Counted(log[i]) ensures Below(counters, log[i].p.env) {}
  }

  lemma DeviceUntouched(counters: map<Id, nat>, log: seq<Entry>, e: Entry)
    requires DevicesIncrease(counters, log) && !e.Observed?
    ensures DevicesIncrease(counters, log + [e])
  {
  }

  lemma OwnerRecorded(owners: map<Id, Id>, log: seq<Entry>, p: Pending)
    requires OwnersFixed(owners, log)
    requires p.env.pseudonym in owners ==> owners[p.env.pseudonym] == p.env.key
    ensures OwnersFixed(owners[p.env.pseudonym := p.env.key], log + [Observed(p)])
  {
  }

  lemma NotRevoked(revoked: set<Id>, revokedAt: map<Id, nat>, log: seq<Entry>, e: Entry)
    requires NoUseAfterRevocation(revoked, revokedAt, log) && (e.Refreshed? || KeyOf(e) !in revoked)
    ensures NoUseAfterRevocation(revoked, revokedAt, log + [e])
  {
  }

  lemma ObservedFacts(config: Config, s: State, p: Pending)
    requires KeysIncrease(s.db.keys, s.log) && DevicesIncrease(s.db.counters, s.log)
    requires OwnersFixed(s.db.owners, s.log) && NoUseAfterRevocation(s.db.revoked, s.revokedAt, s.log)
    requires p.asserted > p.key.counter
    requires Previous(s.db, p.env).None? && Commit(config, s.db, p).code == Validated
    ensures var db := Commit(config, s.db, p).db;
      KeysIncrease(db.keys, s.log + [Observed(p)]) && DevicesIncrease(db.counters, s.log + [Observed(p)]) &&
      OwnersFixed(db.owners, s.log + [Observed(p)]) &&
      NoUseAfterRevocation(db.revoked, s.revokedAt, s.log + [Observed(p)])
  {
    KeyUpdated(s.db.keys, s.log, Observed(p), p.key.(counter := p.asserted));
    DeviceUpdated(s.db.counters, s.log, p);
    OwnerRecorded(s.db.owners, s.log, p);
    NotRevoked(s.db.revoked, s.revokedAt, s.log, Observed(p));
  }

  lemma ObservedTables(config: Config, s: State, p: Pending)
    requires Inv(config, s)
    requires Previous(s.db, p.env).None? && Commit(config, s.db, p).code == Validated
    ensures var db := Commit(config, s.db, p).db;
      NullifiersUnique(db.validations) && |db.validations| <= config.capacity &&
      (if config.relay then JobsMatch(db.validations, db.jobs) else db.jobs == map[]) &&
      (forall q :: q in s.db.owners ==> q in db.owners && db.owners[q] == s.db.owners[q])
  {
    assert !NullifierTaken(s.db, p.env.nullifier);
    var db := Commit(config, s.db, p).db;
    forall h, k | h in db.validations && k in db.validations &&
                  db.validations[h].nullifier == db.validations[k].nullifier
      ensures h == k {}
  }

  lemma AssertedFacts(s: State, e: Entry, read: KeyRow)
    requires KeysIncrease(s.db.keys, s.log) && DevicesIncrease(s.db.counters, s.log)
    requires OwnersFixed(s.db.owners, s.log) && NoUseAfterRevocation(s.db.revoked, s.revokedAt, s.log)
    requires !e.Observed? && MayAssert(s.db, KeyOf(e), read, e.Claimed?) && CounterOf(e) > read.counter
    requires e.Claimed? ==> e.pseudonym in s.db.owners && s.db.owners[e.pseudonym] == e.id
    ensures var db := Asserted(s.db, KeyOf(e), CounterOf(e));
      KeysIncrease(db.keys, s.log + [e]) && DevicesIncrease(db.counters, s.log + [e]) &&
      OwnersFixed(db.owners, s.log + [e]) && NoUseAfterRevocation(db.revoked, s.revokedAt, s.log + [e])
  {
    KeyUpdated(s.db.keys, s.log, e, s.db.keys[KeyOf(e)].(counter := CounterOf(e)));
    DeviceUntouched(s.db.counters, s.log, e);
    assert OwnersFixed(s.db.owners, s.log + [e]);
    NotRevoked(s.db.revoked, s.revokedAt, s.log, e);
  }

  lemma CommitKeepsInv(config: Config, s: State, i: nat)
    requires Inv(config, s) && i < |s.calls|
    ensures Inv(config, Step(config, s, AfterProof(i)))
  {
    WithoutSubset(s.calls, i);
    assert s.calls[i] in s.calls;
    if s.calls[i].Proving? {
      var p := s.calls[i].p;
      if Previous(s.db, p.env).None? && Commit(config, s.db, p).code == Validated {
        ObservedFacts(config, s, p);
        ObservedTables(config, s, p);
      }
    }
  }

  lemma AssertKeepsInv(config: Config, s: State, i: nat)
    requires Inv(config, s) && i < |s.calls|
    ensures Inv(config, Step(config, s, FinishClaim(i))) && Inv(config, Step(config, s, FinishAssertion(i)))
  {
    WithoutSubset(s.calls, i);
    var c := s.calls[i];
    assert c in s.calls;
    if c.Claiming? && MayAssert(s.db, c.id, c.key, true) {
      AssertedFacts(s, Claimed(c.pseudonym, c.id, c.asserted), c.key);
    }
    if c.Asserting? && MayAssert(s.db, c.id, c.key, false) {
      AssertedFacts(s, Refreshed(c.id, c.asserted), c.key);
    }
  }

  lemma AttestKeepsInv(config: Config, s: State, id: Id, pem: Id)
    requires Inv(config, s)
    ensures Inv(config, Step(config, s, Attest(id, pem)))
  {
    assert KeysIncrease(Step(config, s, Attest(id, pem)).db.keys, s.log);
  }

  lemma EnrollKeepsInv(config: Config, s: State, id: Id, class1: bool)
    requires Inv(config, s)
    ensures Inv(config, Step(config, s, Enroll(id, class1)))
  {
  }

  lemma RevokeKeepsInv(config: Config, s: State, id: Id)
    requires Inv(config, s)
    ensures Inv(config, Step(config, s, Revoke(id)))
  {
  }

  /** Events that only start, move or drop a suspended call leave the tables alone. */
  lemma CallsKeepInv(config: Config, s: State, calls: seq<Call>)
    requires Inv(config, s) && CallsOk(calls) && ClaimsOwned(s.db, calls)
    ensures Inv(config, s.(calls := calls))
  {
  }

  lemma StepKeepsInv(config: Config, s: State, e: Event)
    requires Inv(config, s)
    ensures Inv(config, Step(config, s, e))
  {
    match e
    case Attest(id, pem) => AttestKeepsInv(config, s, id, pem);
    case Enroll(id, class1) => EnrollKeepsInv(config, s, id, class1);
    case Revoke(id) => RevokeKeepsInv(config, s, id);
    case AfterProof(i) => if i < |s.calls| { CommitKeepsInv(config, s, i); }
    case FinishClaim(i) => if i < |s.calls| { AssertKeepsInv(config, s, i); }
    case FinishAssertion(i) => if i < |s.calls| { AssertKeepsInv(config, s, i); }
    case _ => MoveKeepsInv(config, s, e);
  }

  lemma MoveKeepsInv(config: Config, s: State, e: Event)
    requires Inv(config, s)
    requires e.BeginReceive? || e.AfterSnapshot? || e.BeginClaim? || e.BeginAssertion? || e.Drop?
    ensures Inv(config, Step(config, s, e))
  {
    var calls := Step(config, s, e).calls;
    assert Step(config, s, e) == s.(calls := calls);
    assert CallsOk(calls) && ClaimsOwned(s.db, calls) by {
      if (e.AfterSnapshot? || e.Drop?) && e.call < |s.calls| { WithoutSubset(s.calls, e.call); }
    }
    CallsKeepInv(config, s, calls);
  }

  lemma {:induction false} RunKeepsInv(config: Config, events: seq<Event>)
    ensures Inv(config, RunOf(config, events))
  {
    if events != [] {
      RunKeepsInv(config, events[..|events| - 1]);
      StepKeepsInv(config, RunOf(config, events[..|events| - 1]), events[|events| - 1]);
    }
  }

  // ---------- main results, over every interleaving ----------

  /** Each key's assertion counter strictly increases over all three kinds of writers. */
  lemma AssertionCountersIncrease(config: Config, events: seq<Event>, i: nat, j: nat)
    requires var log := RunOf(config, events).log; i < j < |log| && KeyOf(log[i]) == KeyOf(log[j])
    ensures var log := RunOf(config, events).log; CounterOf(log[i]) < CounterOf(log[j])
  {
    RunKeepsInv(config, events);
  }

  /** The committed challenge counters of a counter-enabled device strictly increase. */
  lemma DeviceCountersIncrease(config: Config, events: seq<Event>, i: nat, j: nat)
    requires var log := RunOf(config, events).log;
      i < j < |log| && Counted(log[i]) && Counted(log[j]) && log[i].p.env.device == log[j].p.env.device
    ensures var log := RunOf(config, events).log;
      log[i].p.env.first < log[i].p.env.second < log[i].p.env.third < log[j].p.env.first
  {
    RunKeepsInv(config, events);
    DeviceOrder(RunOf(config, events).db.counters, RunOf(config, events).log, i, j);
  }

  lemma DeviceOrder(counters: map<Id, nat>, log: seq<Entry>, i: nat, j: nat)
    requires DevicesIncrease(counters, log) && i < j < |log| && Counted(log[i]) && Counted(log[j])
    requires log[i].p.env.device == log[j].p.env.device
    ensures log[i].p.env.first < log[i].p.env.second < log[i].p.env.third < log[j].p.env.first
  {
    assert Below(counters, log[i].p.env);
  }

  /** No observation and no claim commits with a key after its revocation, however early the call
      had read the key. */
  lemma RevokedKeysCommitNothing(config: Config, events: seq<Event>, i: nat)
    requires var s := RunOf(config, events);
      i < |s.log| && !s.log[i].Refreshed? && KeyOf(s.log[i]) in s.db.revoked
    ensures var s := RunOf(config, events);
      KeyOf(s.log[i]) in s.revokedAt && i < s.revokedAt[KeyOf(s.log[i])]
  {
    RunKeepsInv(config, events);
  }

  /** Nullifiers stay unique; with the relay on, jobs and validations correspond one to one. */
  lemma NullifiersAndJobs(config: Config, events: seq<Event>)
    ensures var db := RunOf(config, events).db;
      NullifiersUnique(db.validations) && (config.relay ==> JobsMatch(db.validations, db.jobs)) &&
      |db.validations| <= config.capacity
  {
    RunKeepsInv(config, events);
  }

  /** A later state never changes a payout owner, nor a validation, nor forgets a log entry. */
  lemma {:induction false} HistoryIsKept(config: Config, events: seq<Event>, k: nat)
    requires k <= |events|
    ensures var early, late := RunOf(config, events[..k]), RunOf(config, events);
      (forall q :: q in early.db.owners ==> q in late.db.owners && late.db.owners[q] == early.db.owners[q]) &&
      (forall h :: h in early.db.validations ==>
        h in late.db.validations && late.db.validations[h] == early.db.validations[h]) &&
      early.log <= late.log
    decreases |events|
  {
    if k < |events| {
      var front := events[..|events| - 1];
      assert front[..k] == events[..k];
      HistoryIsKept(config, front, k);
      StepKeepsHistory(config, RunOf(config, front), events[|events| - 1]);
    } else {
      assert events[..k] == events;
    }
  }

  lemma StepKeepsHistory(config: Config, s: State, e: Event)
    ensures var s' := Step(config, s, e);
      (forall q :: q in s.db.owners ==> q in s'.db.owners && s'.db.owners[q] == s.db.owners[q]) &&
      (forall h :: h in s.db.validations ==> h in s'.db.validations && s'.db.validations[h] == s.db.validations[h]) &&
      s.log <= s'.log
  {
  }

  /** A payout owner never changes, and every claim was made by the owner. */
  lemma ClaimsByOwnersOnly(config: Config, events: seq<Event>, i: nat)
    requires i < |RunOf(config, events).log| && RunOf(config, events).log[i].Claimed?
    ensures var s := RunOf(config, events);
      s.log[i].pseudonym in s.db.owners && s.db.owners[s.log[i].pseudonym] == s.log[i].id
  {
    RunKeepsInv(config, events);
  }
}
