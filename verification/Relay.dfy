/** The durable observation relay: one job driven by a worker that may crash or see an exception at
    any await, over a chain on which signed transactions land only up to their expiry height. */
module Relay {
  import opened Powers
  import opened Wrappers
  const MAX_GENERATIONS: nat := 8
  const RETRY_MS: int := 2_000
  const RETRY_BASE_MS: nat := 1_000
  const MAX_BACKOFF_MS: nat := 3_600_000

  /** Signed bytes are identified by their signature; expiry is the last valid block height. */
  datatype Tx = Tx(signature: nat, expiry: nat)
  datatype Status = Queued | Submitted | Confirmed | Failed
  datatype Reason = InvalidAuthorization | TransactionFailed | PolicyOrChainChanged | ReplacementLimit | Retryable
  datatype Found = Missing | Pending | Landed | Errored

  /** tx: the stored bytes and expiry. The signature column is separate: it is cleared when the account
      turns out to be confirmed by other means. */
  datatype Row = Row(status: Status, tx: Option<Tx>, signature: Option<nat>, generations: nat,
                     attempts: nat, retryAt: int, lastError: Option<Reason>)

  const NewRow := Row(Queued, None, None, 0, 0, 0, None)

  /** The await the worker is suspended at. `live` is false once the local transaction variable is
      undefined, either from the start or after expiry and a second missing-history check. */
  datatype Pc =
    | Idle
    | Inspecting
    | Matching(found: Found)
    | Expiring
    | Reinspecting
    | Rematching
    | Checking(live: bool)
    | Preparing
    | Sending

  /** What the transport answered, or that the awaited call threw. Preparing signs before its size check, so
      it can throw after it signed. */
  datatype Answer =
    | Start(valid: bool)
    | Inspected(found: Found)
    | Exists(yes: bool)
    | Expired(yes: bool)
    | Eligible(yes: bool)
    | Prepared(tx: Tx, wellFormed: bool)
    | Sent
    | Threw(signed: bool)

  datatype Worker = Worker(row: Row, pc: Pc)

  predicate Open(row: Row) { row.status == Queued || row.status == Submitted }

  /** The question each await asks. */
  predicate Answers(pc: Pc, a: Answer) {
    a.Threw? || match pc
      case Idle => a.Start?
      case Inspecting => a.Inspected?
      case Matching(_) => a.Exists?
      case Expiring => a.Expired?
      case Reinspecting => a.Inspected?
      case Rematching => a.Exists?
      case Checking(_) => a.Eligible?
      case Preparing => a.Prepared?
      case Sending => a.Sent?
  }

  function Confirm(w: Worker): Worker { Worker(w.row.(status := Confirmed, lastError := None), Idle) }

  /** The matching account is there, but the stored signature need not be what made it. */
  function ConfirmExisting(w: Worker): Worker {
    Worker(w.row.(status := Confirmed, signature := None, lastError := None), Idle)
  }

  function Fail(w: Worker, reason: Reason): Worker {
    Worker(w.row.(status := Failed, lastError := Some(reason)), Idle)
  }

  function Retry(w: Worker, now: int): Worker {
    Worker(w.row.(retryAt := now + RETRY_MS, lastError := None), Idle)
  }

  function Backoff(attempts: nat): (delay: nat)
    ensures delay <= MAX_BACKOFF_MS
  {
    var delay := RETRY_BASE_MS * Pow2(if attempts < 12 then attempts else 12);
    if delay < MAX_BACKOFF_MS then delay else MAX_BACKOFF_MS
  }

  /** What the loop around the jobs does with an exception. */
  function Catch(w: Worker, now: int): Worker {
    Worker(w.row.(attempts := w.row.attempts + 1, retryAt := now + Backoff(w.row.attempts + 1),
                  lastError := Some(Retryable)), Idle)
  }

  predicate Due(row: Row, now: int) { Open(row) && row.retryAt <= now }

  /** From one await to the next. */
  function Resume(w: Worker, a: Answer, now: int): Worker
    requires Answers(w.pc, a)
  {
    if w.pc.Idle? && !Due(w.row, now) then w
    else if a.Threw? then Catch(w, now)
    else match w.pc
      case Idle =>
        if !a.valid then Fail(w, InvalidAuthorization)
        else w.(pc := if w.row.tx.Some? && w.row.signature.Some? then Inspecting else Rematching)
      case Inspecting => if a.found == Landed then Confirm(w) else w.(pc := Matching(a.found))
      case Matching(found) =>
        if a.yes then ConfirmExisting(w)
        else if found == Errored then Fail(w, TransactionFailed)
        else if found == Pending then Retry(w, now)
        else w.(pc := Expiring)
      case Expiring => w.(pc := if a.yes then Reinspecting else Checking(true))
      case Reinspecting =>
        if a.found == Landed then Confirm(w)
        else if a.found == Errored then Fail(w, TransactionFailed)
        else if a.found != Missing then Retry(w, now)
        else w.(pc := Rematching)
      case Rematching => if a.yes then ConfirmExisting(w) else w.(pc := Checking(false))
      case Checking(live) =>
        if !a.yes then (if live then Retry(w, now) else Fail(w, PolicyOrChainChanged))
        else if live then w.(pc := Sending)
        else if w.row.generations >= MAX_GENERATIONS then Fail(w, ReplacementLimit)
        else w.(pc := Preparing)
      case Preparing =>
        if !a.wellFormed then Catch(w, now)
        else Worker(w.row.(status := Submitted, tx := Some(a.tx), signature := Some(a.tx.signature),
                           generations := w.row.generations + 1), Sending)
      case Sending => Retry(w, now)
  }

  /** The worker over its database row, updated in place. */
  class Relayer {
    var status: Status
    var tx: Option<Tx>
    var signature: Option<nat>
    var generations: nat
    var attempts: nat
    var retryAt: int
    var lastError: Option<Reason>
    var pc: Pc

    ghost function Abs(): Worker reads this {
      Worker(Row(status, tx, signature, generations, attempts, retryAt, lastError), pc)
    }

    constructor ()
      ensures Abs() == Worker(NewRow, Idle)
    {
      status, tx, signature, generations, attempts, retryAt, lastError := Queued, None, None, 0, 0, 0, None;
      pc := Idle;
    }

    method Finish(s: Status, reason: Option<Reason>)
      modifies this`status, this`lastError, this`pc
      ensures status == s && lastError == reason && pc == Idle
    { status, lastError, pc := s, reason, Idle; }

    method RetryLater(now: int)
      modifies this`retryAt, this`lastError, this`pc
      ensures retryAt == now + RETRY_MS && lastError == None && pc == Idle
    { retryAt, lastError, pc := now + RETRY_MS, None, Idle; }

    method FinishExisting()
      modifies this`status, this`signature, this`lastError, this`pc
      ensures Abs() == ConfirmExisting(old(Abs()))
    { status, signature, lastError, pc := Confirmed, None, None, Idle; }

    method CatchError(now: int)
      modifies this`attempts, this`retryAt, this`lastError, this`pc
      ensures Abs() == Catch(old(Abs()), now)
    { attempts, retryAt, lastError, pc := attempts + 1, now + Backoff(attempts + 1), Some(Retryable), Idle; }

    method Process(a: Answer, now: int)
      requires Answers(pc, a)
      modifies this
      ensures Abs() == Resume(old(Abs()), a, now)
    {
      if pc.Idle? && (!(status == Queued || status == Submitted) || retryAt > now) { return; }
      if a.Threw? { CatchError(now); return; }
      match pc
      case Idle =>
        if !a.valid { Finish(Failed, Some(InvalidAuthorization)); return; }
        pc := if tx.Some? && signature.Some? then Inspecting else Rematching;
      case Inspecting =>
        if a.found == Landed { Finish(Confirmed, None); return; }
        pc := Matching(a.found);
      case Matching(found) =>
        if a.yes { FinishExisting(); return; }
        if found == Errored { Finish(Failed, Some(TransactionFailed)); return; }
        if found == Pending { RetryLater(now); return; }
        pc := Expiring;
      case Expiring =>
        pc := if a.yes then Reinspecting else Checking(true);
      case Reinspecting =>
        if a.found == Landed { Finish(Confirmed, None); return; }
        if a.found == Errored { Finish(Failed, Some(TransactionFailed)); return; }
        if a.found != Missing { RetryLater(now); return; }
        pc := Rematching;
      case Rematching =>
        if a.yes { FinishExisting(); return; }
        pc := Checking(false);
      case Checking(live) =>
        if !a.yes {
          if live { RetryLater(now); } else { Finish(Failed, Some(PolicyOrChainChanged)); }
          return;
        }
        if live { pc := Sending; return; }
        if generations >= MAX_GENERATIONS { Finish(Failed, Some(ReplacementLimit)); return; }
        pc := Preparing;
      case Preparing =>
        if !a.wellFormed { CatchError(now); return; }
        status, tx, signature, generations := Submitted, Some(a.tx), Some(a.tx.signature), generations + 1;
        pc := Sending;
      case Sending =>
        RetryLater(now);
    }
  }

  // ---------- worker, chain and history ----------

  /** Finalized state: height, this job's transactions that landed (true: executed, false: failed
      on chain), and whether the nullifier's account exists and matches the payload. */
  datatype Chain = Chain(height: nat, landed: map<Tx, bool>, account: Option<bool>)

  /** valid: the stored payload passes its checks, which never changes; persisted: every transaction
      ever written to the row; sent: every one ever handed to the network; prepared: how many were
      signed. */
  datatype State = State(worker: Worker, chain: Chain, valid: bool, persisted: seq<Tx>, sent: set<Tx>, prepared: nat)

  datatype Event =
    | Reply(a: Answer, now: int)
    | Crash(signed: bool)
    | Advance
    | Land(tx: Tx, ok: bool)
    | Foreign(matches: bool)

  function Init(valid: bool): State {
    State(Worker(NewRow, Idle), Chain(0, map[], None), valid, [], {}, 0)
  }

  /** Positive answers are true. "Missing" is true only once the finalized height has passed the
      transaction's expiry. Everything else may be stale or wrong. */
  predicate Truthful(s: State, a: Answer) {
    var row, chain := s.worker.row, s.chain;
    match a
    case Start(valid) => valid == s.valid
    case Inspected(found) =>
      row.tx.Some? &&
      (found == Landed ==> row.tx.value in chain.landed && chain.landed[row.tx.value] && chain.account == Some(true)) &&
      (found == Errored ==> row.tx.value in chain.landed && !chain.landed[row.tx.value]) &&
      (found == Missing && chain.height > row.tx.value.expiry ==> row.tx.value !in chain.landed)
    case Exists(yes) => yes ==> chain.account == Some(true)
    case Expired(yes) => yes ==> row.tx.Some? && chain.height > row.tx.value.expiry
    case _ => true
  }

  /** A transaction lands at most once, only if sent, and only up to its expiry height; it executes
      only if the nullifier's account does not exist yet. */
  predicate Enabled(s: State, e: Event) {
    match e
    case Reply(a, _) =>
      Answers(s.worker.pc, a) && Truthful(s, a) && (a.Threw? && a.signed ==> s.worker.pc == Preparing)
    case Crash(signed) => signed ==> s.worker.pc == Preparing
    case Advance => true
    case Land(tx, ok) =>
      tx in s.sent && tx !in s.chain.landed && s.chain.height < tx.expiry && (ok ==> s.chain.account == None)
    case Foreign(_) => s.chain.account == None
  }

  function Step(s: State, e: Event): State
    requires Enabled(s, e)
  {
    match e
    case Reply(a, now) =>
      var w := Resume(s.worker, a, now);
      s.(worker := w,
         persisted := if w.row.generations > s.worker.row.generations then s.persisted + [w.row.tx.value]
                      else s.persisted,
         sent := if w.pc == Sending && w.row.tx.Some? then s.sent + {w.row.tx.value} else s.sent,
         prepared := if a.Prepared? || (a.Threw? && a.signed) then s.prepared + 1 else s.prepared)
    case Crash(signed) =>
      s.(worker := s.worker.(pc := Idle), prepared := if signed then s.prepared + 1 else s.prepared)
    case Advance => s.(chain := s.chain.(height := s.chain.height + 1))
    case Land(tx, ok) =>
      s.(chain := s.chain.(height := s.chain.height + 1, landed := s.chain.landed[tx := ok],
                           account := if ok then Some(true) else s.chain.account))
    case Foreign(matches) => s.(chain := s.chain.(account := Some(matches)))
  }

  /** The states of a run: states[0] is initial and each event is enabled where it happens. */
  ghost predicate IsRun(valid: bool, events: seq<Event>, states: seq<State>) {
    && |states| == |events| + 1 && states[0] == Init(valid)
    && (forall i :: 0 <= i < |events| ==> Enabled(states[i], events[i]) && states[i + 1] == Step(states[i], events[i]))
  }

  // ---------- the invariant ----------

  /** Never landed and never can. */
  predicate Dead(s: State, tx: Tx) {
    s.chain.height > tx.expiry && tx !in s.chain.landed
  }

  predicate Spent(s: State) {
    s.worker.row.tx.Some? ==> Dead(s, s.worker.row.tx.value)
  }

  ghost predicate AtAwait(s: State) {
    match s.worker.pc
    case Idle => true
    case Inspecting => s.worker.row.tx.Some?
    case Matching(found) =>
      s.worker.row.tx.Some? &&
      (found == Errored ==> s.worker.row.tx.value in s.chain.landed && !s.chain.landed[s.worker.row.tx.value])
    case Expiring => s.worker.row.tx.Some?
    case Reinspecting => s.worker.row.tx.Some? && s.chain.height > s.worker.row.tx.value.expiry
    case Rematching => Spent(s)
    case Checking(live) => if live then s.worker.row.tx.Some? else Spent(s)
    case Preparing => Spent(s) && s.worker.row.generations < MAX_GENERATIONS
    case Sending => s.worker.row.tx.Some?
  }

  ghost predicate Inv(s: State) {
    var row := s.worker.row;
    && |s.persisted| == row.generations <= MAX_GENERATIONS
    && (Open(row) ==> row.signature == match row.tx case Some(tx) => Some(tx.signature) case None => None)
    && (row.tx.Some? <==> s.persisted != []) && (row.tx.Some? ==> row.tx.value == s.persisted[|s.persisted| - 1])
    && (forall tx :: tx in s.sent ==> tx in s.persisted)
    && (forall tx :: tx in s.chain.landed ==> tx in s.sent)
    && (forall tx :: tx in s.persisted && row.tx != Some(tx) ==> Dead(s, tx))
    && (row.status == Confirmed ==> s.chain.account == Some(true))
    && (row.status == Failed ==>
         forall tx :: tx in s.persisted ==>
           (tx in s.chain.landed && !s.chain.landed[tx]) || Dead(s, tx))
    && (!Open(row) ==> s.worker.pc == Idle)
    && (!s.valid ==> s.persisted == [] && s.worker.pc == Idle)
    && (forall tx :: tx in s.chain.landed && s.chain.landed[tx] ==> s.chain.account == Some(true))
    && AtAwait(s)
  }

  lemma ReplyKeepsInv(s: State, a: Answer, now: int)
    requires Inv(s) && Enabled(s, Reply(a, now))
    ensures Inv(Step(s, Reply(a, now)))
  {
    var s' := Step(s, Reply(a, now));
    var row := s.worker.row;
    if a.Prepared? && a.wellFormed {
      assert s'.persisted == s.persisted + [a.tx];
      forall tx | tx in s'.persisted && tx != a.tx ensures Dead(s', tx) {
        if row.tx == Some(tx) { assert Dead(s, tx); }
      }
    }
  }

  lemma StepKeepsInv(s: State, e: Event)
    requires Inv(s) && Enabled(s, e)
    ensures Inv(Step(s, e))
  {
    match e
    case Reply(a, now) => ReplyKeepsInv(s, a, now);
    case Crash(_) =>
    case Advance =>
    case Land(tx, ok) =>
      assert !Dead(s, tx);
      assert s.worker.row.tx == Some(tx);
    case Foreign(_) =>
  }

  lemma {:induction false} RunKeepsInv(valid: bool, events: seq<Event>, states: seq<State>, k: nat)
    requires IsRun(valid, events, states) && k < |states|
    ensures Inv(states[k])
  {
    if k > 0 {
      RunKeepsInv(valid, events, states, k - 1);
      assert states[k - 1 + 1] == Step(states[k - 1], events[k - 1]);
      StepKeepsInv(states[k - 1], events[k - 1]);
    }
  }

  // ---------- main results ----------

  /** Bytes reach the network only after they are in the row, and everything that ever lands is one
      of at most eight transactions written there. */
  lemma PersistedBeforeSent(valid: bool, events: seq<Event>, states: seq<State>, k: nat, tx: Tx)
    requires IsRun(valid, events, states) && k < |states|
    ensures |states[k].persisted| <= MAX_GENERATIONS
    ensures tx in states[k].sent || tx in states[k].chain.landed ==> tx in states[k].persisted
  {
    RunKeepsInv(valid, events, states, k);
  }

  /** A superseded transaction has not landed and cannot land, so at most one ever lands. */
  lemma AtMostOneLands(valid: bool, events: seq<Event>, states: seq<State>, k: nat, a: Tx, b: Tx)
    requires IsRun(valid, events, states) && k < |states|
    ensures a in states[k].persisted && states[k].worker.row.tx != Some(a) ==> Dead(states[k], a)
    ensures a in states[k].chain.landed && b in states[k].chain.landed ==> a == b
  {
    RunKeepsInv(valid, events, states, k);
    if a in states[k].chain.landed { assert !Dead(states[k], a); }
    if b in states[k].chain.landed { assert !Dead(states[k], b); }
  }

  lemma {:induction false} HeightGrows(valid: bool, events: seq<Event>, states: seq<State>, j: nat, k: nat, tx: Tx)
    requires IsRun(valid, events, states) && j <= k < |states| && states[j].chain.height >= tx.expiry
    ensures states[k].chain.height >= tx.expiry
    ensures tx in states[k].chain.landed <==> tx in states[j].chain.landed
    ensures tx in states[j].chain.landed ==> states[k].chain.landed[tx] == states[j].chain.landed[tx]
    decreases k - j
  {
    if j < k {
      HeightGrows(valid, events, states, j, k - 1, tx);
      assert states[k - 1 + 1] == Step(states[k - 1], events[k - 1]);
    }
  }

  lemma {:induction false} ClosedForGood(valid: bool, events: seq<Event>, states: seq<State>, j: nat, k: nat)
    requires IsRun(valid, events, states) && j <= k < |states| && !Open(states[j].worker.row)
    ensures states[k].worker.row == states[j].worker.row && states[k].persisted == states[j].persisted
    ensures forall tx :: tx in states[j].chain.landed ==>
      tx in states[k].chain.landed && states[k].chain.landed[tx] == states[j].chain.landed[tx]
    decreases k - j
  {
    if j < k {
      ClosedForGood(valid, events, states, j, k - 1);
      RunKeepsInv(valid, events, states, k - 1);
      assert states[k - 1 + 1] == Step(states[k - 1], events[k - 1]);
    }
  }

  /** Once a job is failed, none of its transactions executes, then or ever after; and a confirmed job
      has its matching commitment on chain. Both verdicts are final. */
  lemma VerdictsAreFinal(valid: bool, events: seq<Event>, states: seq<State>, j: nat, k: nat, tx: Tx)
    requires IsRun(valid, events, states) && j <= k < |states| && !Open(states[j].worker.row)
    ensures states[k].worker.row.status == states[j].worker.row.status
    ensures states[j].worker.row.status == Confirmed ==> states[k].chain.account == Some(true)
    ensures states[j].worker.row.status == Failed && tx in states[k].chain.landed ==> !states[k].chain.landed[tx]
  {
    RunKeepsInv(valid, events, states, j);
    RunKeepsInv(valid, events, states, k);
    ClosedForGood(valid, events, states, j, k);
    if tx in states[k].chain.landed {
      assert tx in states[k].sent && tx in states[k].persisted;
      assert !Dead(states[k], tx);
    }
  }

  /** A job whose payload does not check out never gets a transaction. */
  lemma InvalidNeverSigned(events: seq<Event>, states: seq<State>, k: nat)
    requires IsRun(false, events, states) && k < |states|
    ensures states[k].persisted == [] && states[k].sent == {}
  {
    RunKeepsInv(false, events, states, k);
    ValidConstant(false, events, states, k);
  }

  lemma {:induction false} ValidConstant(valid: bool, events: seq<Event>, states: seq<State>, k: nat)
    requires IsRun(valid, events, states) && k < |states|
    ensures states[k].valid == valid
  {
    if k > 0 {
      ValidConstant(valid, events, states, k - 1);
      assert states[k - 1 + 1] == Step(states[k - 1], events[k - 1]);
    }
  }

  // ---------- what leads to each verdict ----------

  /** The latest answer on whether the account exists. */
  function LastExists(events: seq<Event>): Option<bool> {
    if events == [] then None
    else
      var e := events[|events| - 1];
      if e.Reply? && e.a.Exists? then Some(e.a.yes) else LastExists(events[..|events| - 1])
  }

  /** From the eligibility check on, the account was last reported missing. */
  lemma {:induction false} EligibilityFollowsNo(valid: bool, events: seq<Event>, states: seq<State>, k: nat)
    requires IsRun(valid, events, states) && k < |states|
    ensures var pc := states[k].worker.pc;
      pc.Expiring? || pc.Reinspecting? || pc.Checking? || pc.Preparing? ==> LastExists(events[..k]) == Some(false)
  {
    if k > 0 {
      EligibilityFollowsNo(valid, events, states, k - 1);
      assert states[k - 1 + 1] == Step(states[k - 1], events[k - 1]);
      assert events[..k][..k - 1] == events[..k - 1];
    }
  }

  /** A found account confirms the job, which then names no signature of its own; a landed transaction
      confirms it under its own. */
  lemma WhatConfirms(valid: bool, events: seq<Event>, states: seq<State>, k: nat)
    requires IsRun(valid, events, states) && k < |events| && events[k].Reply?
    ensures var a, row := events[k].a, states[k + 1].worker.row;
      (a.Exists? && a.yes ==> row.status == Confirmed && row.signature == None && row.lastError == None) &&
      (a.Inspected? && a.found == Landed ==>
        row.status == Confirmed && row.tx.Some? && row.signature == Some(row.tx.value.signature) &&
        row.lastError == None)
  {
    RunKeepsInv(valid, events, states, k);
    assert states[k + 1] == Step(states[k], events[k]);
  }

  /** Nothing else does. */
  lemma OnlyThatConfirms(valid: bool, events: seq<Event>, states: seq<State>, k: nat)
    requires IsRun(valid, events, states) && k < |events|
    requires states[k].worker.row.status != Confirmed && states[k + 1].worker.row.status == Confirmed
    ensures events[k].Reply?
    ensures events[k].a == Exists(true) || events[k].a == Inspected(Landed)
  {
    assert states[k + 1] == Step(states[k], events[k]);
  }

  ghost predicate FailsFor(s: State, a: Answer, existing: Option<bool>, row: Row) {
    || (row.lastError == Some(InvalidAuthorization) && s.worker.pc == Idle && a == Start(false))
    || (row.lastError == Some(TransactionFailed) && row.tx.Some? &&
        (a == Inspected(Errored) || (a == Exists(false) && s.worker.pc == Matching(Errored))) &&
        row.tx.value in s.chain.landed && !s.chain.landed[row.tx.value])
    || (row.lastError == Some(PolicyOrChainChanged) && s.worker.pc == Checking(false) && a == Eligible(false) &&
        Spent(s) && existing == Some(false))
    || (row.lastError == Some(ReplacementLimit) && s.worker.pc == Checking(false) && a == Eligible(true) &&
        row.generations == MAX_GENERATIONS && Spent(s) && existing == Some(false))
  }

  /** A job fails for an invalid payload, an errored transaction, a refusal without live bytes, or at eight
      generations - in the last two cases with the account last reported missing - and the row says which. */
  lemma WhatFails(valid: bool, events: seq<Event>, states: seq<State>, k: nat)
    requires IsRun(valid, events, states) && k < |events|
    requires states[k].worker.row.status != Failed && states[k + 1].worker.row.status == Failed
    ensures events[k].Reply?
    ensures states[k + 1].worker.row.lastError == Some(InvalidAuthorization) <==> !valid
    ensures FailsFor(states[k], events[k].a, LastExists(events[..k]), states[k + 1].worker.row)
  {
    RunKeepsInv(valid, events, states, k);
    EligibilityFollowsNo(valid, events, states, k);
    ValidConstant(valid, events, states, k);
    assert states[k + 1] == Step(states[k], events[k]);
  }

  // ---------- one whole pass over a job ----------

  /** The answers to each question a pass may ask; None when the call throws. */
  datatype Oracle = Oracle(valid: bool, inspect: Option<Found>, existing: Option<bool>, expired: Option<bool>,
                           reinspect: Option<Found>, recheck: Option<bool>, eligible: Option<bool>,
                           prepare: Option<(Tx, bool)>, signed: bool, send: Option<()>)

  function AfterError(row: Row, now: int): Row {
    row.(attempts := row.attempts + 1, lastError := Some(Retryable),
         retryAt := now + if row.attempts + 1 >= 12 then 3_600_000 else 1_000 * Pow2(row.attempts + 1))
  }

  /** The pass as straight-line code: the job with live bytes first ... */
  function Pass(row: Row, o: Oracle, now: int): Row {
    if row.status == Confirmed || row.status == Failed || row.retryAt > now then row
    else if !o.valid then row.(status := Failed, lastError := Some(InvalidAuthorization))
    else if row.tx.None? || row.signature.None? then PassWithout(row, o, now)
    else if o.inspect.None? then AfterError(row, now)
    else if o.inspect == Some(Landed) then row.(status := Confirmed, lastError := None)
    else if o.existing.None? then AfterError(row, now)
    else if o.existing.value then row.(status := Confirmed, signature := None, lastError := None)
    else if o.inspect == Some(Errored) then row.(status := Failed, lastError := Some(TransactionFailed))
    else if o.inspect == Some(Pending) then row.(retryAt := now + 2_000, lastError := None)
    else PassExpiring(row, o, now)
  }

  /** ... which is only let go once expired and missing after that, ... */
  function PassExpiring(row: Row, o: Oracle, now: int): Row {
    if o.expired.None? then AfterError(row, now)
    else if !o.expired.value then
      (if o.eligible.None? then AfterError(row, now)
       else if !o.eligible.value then row.(retryAt := now + 2_000, lastError := None)
       else PassSend(row, o, now))
    else if o.reinspect.None? then AfterError(row, now)
    else match o.reinspect.value
      case Landed => row.(status := Confirmed, lastError := None)
      case Errored => row.(status := Failed, lastError := Some(TransactionFailed))
      case Pending => row.(retryAt := now + 2_000, lastError := None)
      case Missing => PassWithout(row, o, now)
  }

  /** ... then the job without, ... */
  function PassWithout(row: Row, o: Oracle, now: int): Row {
    if o.recheck.None? then AfterError(row, now)
    else if o.recheck.value then row.(status := Confirmed, signature := None, lastError := None)
    else if o.eligible.None? then AfterError(row, now)
    else if !o.eligible.value then row.(status := Failed, lastError := Some(PolicyOrChainChanged))
    else if row.generations >= 8 then row.(status := Failed, lastError := Some(ReplacementLimit))
    else if o.prepare.None? || !o.prepare.value.1 then AfterError(row, now)
    else
      var tx := o.prepare.value.0;
      PassSend(row.(status := Submitted, tx := Some(tx), signature := Some(tx.signature),
                    generations := row.generations + 1), o, now)
  }

  /** ... and sending. */
  function PassSend(row: Row, o: Oracle, now: int): Row {
    if o.send.None? then AfterError(row, now) else row.(retryAt := now + 2_000, lastError := None)
  }

  function AnswerFrom(o: Oracle, pc: Pc): Answer {
    match pc
    case Idle => Start(o.valid)
    case Inspecting => if o.inspect.None? then Threw(false) else Inspected(o.inspect.value)
    case Matching(_) => if o.existing.None? then Threw(false) else Exists(o.existing.value)
    case Expiring => if o.expired.None? then Threw(false) else Expired(o.expired.value)
    case Reinspecting => if o.reinspect.None? then Threw(false) else Inspected(o.reinspect.value)
    case Rematching => if o.recheck.None? then Threw(false) else Exists(o.recheck.value)
    case Checking(_) => if o.eligible.None? then Threw(false) else Eligible(o.eligible.value)
    case Preparing =>
      if o.prepare.None? then Threw(o.signed) else Prepared(o.prepare.value.0, o.prepare.value.1)
    case Sending => if o.send.None? then Threw(false) else Sent
  }

  function Awaits(pc: Pc): nat {
    match pc
    case Idle => 0
    case Inspecting => 8
    case Matching(_) => 7
    case Expiring => 6
    case Reinspecting => 5
    case Rematching => 4
    case Checking(_) => 3
    case Preparing => 2
    case Sending => 1
  }

  /** From await to await until the job is put down. */
  function Drive(w: Worker, o: Oracle, now: int): Worker
    decreases Awaits(w.pc)
  {
    if w.pc.Idle? then w else Drive(Resume(w, AnswerFrom(o, w.pc), now), o, now)
  }

  lemma BackoffIsCapped(attempts: nat)
    ensures Backoff(attempts) == if attempts >= 12 then 3_600_000 else 1_000 * Pow2(attempts)
  {
    assert Pow2(4) == 16 && Pow2(8) == 256 && Pow2(12) == 4096 by { Pow2Plus4(0); Pow2Plus4(4); Pow2Plus4(8); }
    if attempts <= 11 { Pow2Mono(attempts, 11); assert Pow2(12) == 2 * Pow2(11); }
  }

  function Onward(w: Worker, o: Oracle, now: int): Worker { Resume(w, AnswerFrom(o, w.pc), now) }

  lemma DriveNext(w: Worker, o: Oracle, now: int)
    requires !w.pc.Idle?
    ensures Drive(w, o, now) == Drive(Onward(w, o, now), o, now)
  {
  }

  lemma DriveSending(row: Row, o: Oracle, now: int)
    ensures Drive(Worker(row, Sending), o, now) == Worker(PassSend(row, o, now), Idle)
  {
    BackoffIsCapped(row.attempts + 1);
  }

  lemma DrivePreparing(row: Row, o: Oracle, now: int)
    requires row.generations < 8
    ensures Drive(Worker(row, Preparing), o, now) == Worker(
      if o.prepare.None? || !o.prepare.value.1 then AfterError(row, now)
      else PassSend(row.(status := Submitted, tx := Some(o.prepare.value.0), generations := row.generations + 1,
                         signature := Some(o.prepare.value.0.signature)), o, now), Idle)
  {
    BackoffIsCapped(row.attempts + 1);
    var w := Onward(Worker(row, Preparing), o, now);
    if !w.pc.Idle? { DriveSending(w.row, o, now); }
  }

  lemma DriveChecking(row: Row, live: bool, o: Oracle, now: int)
    ensures var w := Onward(Worker(row, Checking(live)), o, now);
      Drive(Worker(row, Checking(live)), o, now) == Drive(w, o, now) &&
      (w.pc.Idle? || (live && w == Worker(row, Sending)) || (!live && w == Worker(row, Preparing)))
  {
  }

  lemma DriveWithout(row: Row, o: Oracle, now: int)
    ensures Drive(Worker(row, Rematching), o, now) == Worker(PassWithout(row, o, now), Idle)
  {
    BackoffIsCapped(row.attempts + 1);
    var w := Onward(Worker(row, Rematching), o, now);
    if !w.pc.Idle? {
      DriveChecking(row, false, o, now);
      if Onward(w, o, now).pc.Preparing? { DrivePreparing(row, o, now); }
    }
  }

  /** From the answer on expiry on. */
  lemma DriveExpiring(row: Row, o: Oracle, now: int)
    ensures Drive(Worker(row, Expiring), o, now) == Worker(PassExpiring(row, o, now), Idle)
  {
    BackoffIsCapped(row.attempts + 1);
    var w := Onward(Worker(row, Expiring), o, now);
    if w.pc.Checking? {
      DriveChecking(row, true, o, now);
      DriveSending(row, o, now);
    } else if w.pc.Reinspecting? {
      DriveNext(w, o, now);
      DriveWithout(row, o, now);
    }
  }

  /** The worker, suspended at every await, does what the straight-line pass does. */
  lemma WorkerMakesThePass(row: Row, o: Oracle, now: int)
    ensures Drive(Resume(Worker(row, Idle), Start(o.valid), now), o, now) == Worker(Pass(row, o, now), Idle)
  {
    BackoffIsCapped(row.attempts + 1);
    var w := Resume(Worker(row, Idle), Start(o.valid), now);
    if w.pc.Rematching? {
      DriveWithout(row, o, now);
    } else if w.pc.Inspecting? {
      var v := Onward(w, o, now);
      DriveNext(w, o, now);
      if v.pc.Matching? {
        DriveNext(v, o, now);
        DriveExpiring(row, o, now);
      }
    }
  }

  // ---------- how many are signed ----------

  /** A signing whose transaction never reaches the row: a crash, or an exception, before the write. */
  predicate IsLoss(e: Event) {
    || (e.Crash? && e.signed)
    || (e.Reply? && e.a.Threw? && e.a.signed)
    || (e.Reply? && e.a.Prepared? && !e.a.wellFormed)
  }

  function Lost(events: seq<Event>): nat {
    if events == [] then 0
    else Lost(events[..|events| - 1]) + if IsLoss(events[|events| - 1]) then 1 else 0
  }

  /** Over every run at most eight transactions are signed beyond those lost. */
  lemma {:induction false} SignedCount(valid: bool, events: seq<Event>, states: seq<State>, k: nat)
    requires IsRun(valid, events, states) && k < |states|
    ensures states[k].prepared == states[k].worker.row.generations + Lost(events[..k])
    ensures states[k].prepared <= MAX_GENERATIONS + Lost(events[..k])
  {
    RunKeepsInv(valid, events, states, k);
    if k > 0 {
      SignedCount(valid, events, states, k - 1);
      assert states[k - 1 + 1] == Step(states[k - 1], events[k - 1]);
      assert events[..k][..k - 1] == events[..k - 1];
    }
  }

  // ---------- the bound is reached ----------

  datatype Run = Run(events: seq<Event>, states: seq<State>)

  ghost predicate Valid(r: Run) { IsRun(true, r.events, r.states) }

  ghost function End(r: Run): State
    requires Valid(r)
  {
    r.states[|r.events|]
  }

  lemma Extend(r: Run, e: Event) returns (r': Run)
    requires Valid(r) && Enabled(End(r), e)
    ensures Valid(r') && End(r') == Step(End(r), e)
    ensures Lost(r'.events) == Lost(r.events) + if IsLoss(e) then 1 else 0
  {
    r' := Run(r.events + [e], r.states + [Step(End(r), e)]);
    assert r'.events[..|r.events|] == r.events;
    forall i | 0 <= i < |r'.events|
      ensures Enabled(r'.states[i], r'.events[i]) && r'.states[i + 1] == Step(r'.states[i], r'.events[i])
    {
      if i < |r.events| {
        assert r'.states[i] == r.states[i] && r'.states[i + 1] == r.states[i + 1] && r'.events[i] == r.events[i];
      }
    }
  }

  /** At rest with g generations, nothing landed, and the last transaction about to expire. */
  ghost predicate Resting(s: State, g: nat) {
    var row := s.worker.row;
    && s.worker.pc == Idle && Due(row, 0) && row.generations == g && s.valid && s.prepared >= g
    && s.chain.landed == map[] && s.chain.account == None
    && row.signature.Some? == row.tx.Some? && (row.tx.Some? ==> row.tx.value.expiry <= s.chain.height)
  }

  /** Sign and crash before the write. */
  lemma LoseOne(r: Run) returns (r': Run)
    requires Valid(r) && Resting(End(r), 0) && End(r).worker.row.tx == None
    ensures Valid(r') && Resting(End(r'), 0) && End(r').worker.row.tx == None
    ensures Lost(r'.events) == Lost(r.events) + 1 && End(r').sent == End(r).sent
  {
    r' := Extend(r, Reply(Start(true), 0));
    r' := Extend(r', Reply(Exists(false), 0));
    r' := Extend(r', Reply(Eligible(true), 0));
    r' := Extend(r', Crash(true));
  }

  /** The job comes due after its transaction expired; history knows nothing of it. */
  lemma LookUp(r: Run) returns (r': Run)
    requires Valid(r) && End(r).worker.row.tx.Some? && Resting(End(r), End(r).worker.row.generations)
    ensures Valid(r') && Lost(r'.events) == Lost(r.events)
    ensures End(r') == End(r).(worker := End(r).worker.(pc := Matching(Missing)),
                               chain := End(r).chain.(height := End(r).chain.height + 1))
  {
    r' := Extend(r, Advance);
    r' := Extend(r', Reply(Start(true), 0));
    r' := Extend(r', Reply(Inspected(Missing), 0));
  }

  /** After expiry it is looked up once more, found missing, and let go. */
  lemma LetGo(r: Run) returns (r': Run)
    requires Valid(r) && End(r).worker.pc == Matching(Missing) && Open(End(r).worker.row)
    requires End(r).worker.row.tx.Some? && End(r).chain.height > End(r).worker.row.tx.value.expiry
    requires End(r).chain.landed == map[]
    ensures Valid(r') && Lost(r'.events) == Lost(r.events)
    ensures End(r') == End(r).(worker := End(r).worker.(pc := Rematching))
  {
    r' := Extend(r, Reply(Exists(false), 0));
    r' := Extend(r', Reply(Expired(true), 0));
    r' := Extend(r', Reply(Inspected(Missing), 0));
  }

  /** Sign, write, start sending and crash. */
  lemma SignAndCrash(r: Run, g: nat) returns (r': Run)
    requires Valid(r) && End(r).worker.pc == Rematching && g < MAX_GENERATIONS
    requires Resting(End(r).(worker := End(r).worker.(pc := Idle)), g)
    ensures Valid(r') && Resting(End(r'), g + 1) && Lost(r'.events) == Lost(r.events)
  {
    r' := Extend(r, Reply(Exists(false), 0));
    r' := Extend(r', Reply(Eligible(true), 0));
    r' := Extend(r', Reply(Prepared(Tx(g, End(r').chain.height), true), 0));
    r' := Extend(r', Crash(false));
  }

  lemma KeepOne(r: Run, g: nat) returns (r': Run)
    requires Valid(r) && Resting(End(r), g) && g < MAX_GENERATIONS
    ensures Valid(r') && Resting(End(r'), g + 1) && Lost(r'.events) == Lost(r.events)
  {
    if End(r).worker.row.tx.Some? {
      r' := LookUp(r);
      r' := LetGo(r');
    } else {
      r' := Extend(r, Reply(Start(true), 0));
    }
    r' := SignAndCrash(r', g);
  }

  /** Any number of transactions can be signed and lost, though none of them is ever sent. */
  lemma {:induction false} SignedWithoutBound(n: nat) returns (r: Run)
    ensures Valid(r) && Lost(r.events) == n && End(r).prepared == n && End(r).sent == {}
    ensures Resting(End(r), 0) && End(r).worker.row.tx == None
  {
    if n == 0 {
      r := Run([], [Init(true)]);
    } else {
      r := SignedWithoutBound(n - 1);
      r := LoseOne(r);
      SignedCount(true, r.events, r.states, |r.events|);
      assert r.events[..|r.events|] == r.events;
    }
  }

  /** And the bound is met: some run with n losses signs eight more than it loses. */
  lemma SignedCountIsTight(n: nat) returns (r: Run)
    ensures Valid(r) && Lost(r.events) == n && End(r).prepared == MAX_GENERATIONS + n
  {
    r := SignedWithoutBound(n);
    for g := 0 to MAX_GENERATIONS
      invariant Valid(r) && Resting(End(r), g) && Lost(r.events) == n
    {
      r := KeepOne(r, g);
    }
    SignedCount(true, r.events, r.states, |r.events|);
    assert r.events[..|r.events|] == r.events;
  }

  ghost predicate SignsAtMostEight(r: Run)
    requires Valid(r)
  {
    End(r).prepared <= MAX_GENERATIONS
  }

  /** Eight bounds the signings of every run with n losses exactly when n is zero. */
  lemma EightOnlyWithoutLosses(n: nat)
    ensures (forall r :: Valid(r) && Lost(r.events) == n ==> SignsAtMostEight(r)) <==> n == 0
  {
    forall r | Valid(r) && Lost(r.events) == 0 ensures SignsAtMostEight(r) {
      SignedCount(true, r.events, r.states, |r.events|);
      assert r.events[..|r.events|] == r.events;
    }
    var r := SignedCountIsTight(n);
    assert n > 0 ==> !SignsAtMostEight(r);
  }
}
