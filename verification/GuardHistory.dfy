/** What the guard's verdicts mean: a guard that remembers every attempt of the boot, and the proof that
    the bounded one always answers like it. */
module GuardHistory {
  import opened Wrappers
  import opened Guard

  /** Every recorded attempt; how many were recorded before this connection began; the last clock
      reading that was not refused. */
  datatype History = History(log: seq<Attempt>, since: nat, reading: Option<int>)

  const NoHistory := History([], 0, None)

  ghost predicate TooSoon(h: History, now: int) {
    exists i :: h.since <= i < |h.log| && now - h.log[i].time < 2_000_000
  }

  ghost function LastMinute(log: seq<Attempt>, now: int): set<int> {
    set i | 0 <= i < |log| && now - log[i].time < 60_000_000
  }

  ghost predicate Answered(log: seq<Attempt>, nonce: Nonce, now: int) {
    exists i :: 0 <= i < |log| && log[i].ok && log[i].nonce == nonce && now - log[i].time < 600_000_000
  }

  ghost function VerdictOn(h: History, nonce: Nonce, now: int): Verdict {
    if now < 0 || (h.reading.Some? && now < h.reading.value) then Clock
    else if TooSoon(h, now) || |LastMinute(h.log, now)| >= 30 then Rate
    else if Answered(h.log, nonce, now) then Replay
    else Verdict.Ok
  }

  ghost function Next(h: History, input: Input): History {
    match input
    case Reconnect => h.(since := |h.log|)
    case Challenge(nonce, now) =>
      var verdict := VerdictOn(h, nonce, now);
      if verdict == Clock then h
      else if verdict == Rate then h.(reading := Some(now))
      else History(h.log + [Attempt(nonce, now, verdict == Verdict.Ok)], h.since, Some(now))
  }

  ghost function HistoryOf(inputs: seq<Input>): History {
    if inputs == [] then NoHistory else Next(HistoryOf(inputs[..|inputs| - 1]), inputs[|inputs| - 1])
  }

  /** The bounded guard's fields agree with the history. */
  ghost predicate Agrees(r: Run, h: History) {
    && r.log == h.log && h.since <= |h.log|
    && h.reading == (if r.state.timeSeen then Some(r.state.lastTime) else None)
    && (r.limit.attempted <==> h.since < |h.log|)
    && (r.limit.attempted ==> r.limit.lastAttempt == h.log[|h.log| - 1].time)
  }

  lemma LiveAreLastMinute(attempts: seq<int>, log: seq<Attempt>, now: int)
    requires Windowed(attempts, log, now) && forall k :: 0 <= k < |attempts| ==> now - attempts[k] < RATE_WINDOW
    ensures |LastMinute(log, now)| == |attempts|
  {
    forall i | |log| - |attempts| <= i < |log| ensures now - log[i].time < RATE_WINDOW {
      assert attempts[i - (|log| - |attempts|)] == log[i].time;
    }
    assert LastMinute(log, now) == Range(|log| - |attempts|, |log|);
  }

  lemma {:induction false} RecentIsRecent(a: seq<int>, now: int)
    ensures forall k :: 0 <= k < |Recent(a, now)| ==> now - Recent(a, now)[k] < RATE_WINDOW
  {
    if a != [] { RecentIsRecent(a[..|a| - 1], now); }
  }

  lemma WindowAgrees(r: Run, now: int)
    requires Inv(r) && (r.state.timeSeen ==> r.state.lastTime <= now)
    ensures |Recent(r.state.attempts, now)| == |LastMinute(r.log, now)| <= GLOBAL_LIMIT
  {
    var last := if r.state.timeSeen then r.state.lastTime else now;
    CompactedWindow(r.state.attempts, r.log, last, now);
    RecentIsRecent(r.state.attempts, now);
    LiveAreLastMinute(Recent(r.state.attempts, now), r.log, now);
  }

  lemma SoonAgrees(r: Run, h: History, now: int)
    requires Clocked(r) && Agrees(r, h)
    ensures TooSoon(h, now) <==> r.limit.attempted && now - r.limit.lastAttempt < CONNECTION_INTERVAL
  {
    if r.limit.attempted && now - r.limit.lastAttempt < CONNECTION_INTERVAL {
      assert h.since <= |h.log| - 1 && now - h.log[|h.log| - 1].time < CONNECTION_INTERVAL;
    }
  }

  lemma NonceAgrees(r: Run, nonce: Nonce, now: int)
    requires Inv(r) && (r.state.timeSeen ==> r.state.lastTime <= now)
    ensures Answered(r.log, nonce, now) <==> Hit(r.state.nonces, nonce, now, 0) < |r.state.nonces|
  {
    var k := Hit(r.state.nonces, nonce, now, 0);
    if k < |r.state.nonces| {
      assert r.log[r.owner[k]] == Attempt(nonce, r.state.nonces[k].admitted, true);
    } else {
      var last := if r.state.timeSeen then r.state.lastTime else now;
      MissedNonceIsOld(r.state.nonces, r.owner, r.log, nonce, last, now);
    }
  }

  lemma VerdictAgrees(r: Run, h: History, nonce: Nonce, now: int)
    requires Inv(r) && Agrees(r, h)
    ensures Accept(r.state, r.limit, nonce, now).2 == VerdictOn(h, nonce, now)
  {
    if now >= 0 && (r.state.timeSeen ==> r.state.lastTime <= now) {
      WindowAgrees(r, now);
      SoonAgrees(r, h, now);
      NonceAgrees(r, nonce, now);
    }
  }

  lemma StepAgrees(r: Run, h: History, input: Input)
    requires Inv(r) && Agrees(r, h)
    ensures Agrees(Step(r, input), Next(h, input))
  {
    if input.Challenge? { VerdictAgrees(r, h, input.nonce, input.now); }
  }

  lemma {:induction false} RunAgrees(inputs: seq<Input>)
    ensures Agrees(RunOf(inputs), HistoryOf(inputs))
  {
    if inputs != [] {
      RunAgrees(inputs[..|inputs| - 1]);
      RunKeepsInv(inputs[..|inputs| - 1]);
      StepAgrees(RunOf(inputs[..|inputs| - 1]), HistoryOf(inputs[..|inputs| - 1]), inputs[|inputs| - 1]);
    }
  }

  // ---------- main results ----------

  /** After any challenges, readings and reconnects the guard, with its 30 times and 300 nonces, answers
      exactly as one that remembers everything, and records the same attempts. */
  lemma GuardRemembersEnough(inputs: seq<Input>, nonce: Nonce, now: int)
    ensures var r := RunOf(inputs);
      r.log == HistoryOf(inputs).log &&
      Accept(r.state, r.limit, nonce, now).2 == VerdictOn(HistoryOf(inputs), nonce, now)
  {
    RunAgrees(inputs);
    RunKeepsInv(inputs);
    VerdictAgrees(RunOf(inputs), HistoryOf(inputs), nonce, now);
  }

  /** A reading that is not refused is rate-limited if and only if an attempt of this connection is less
      than two seconds old, or thirty attempts of the boot are less than a minute old. */
  lemma RateIsExact(inputs: seq<Input>, nonce: Nonce, now: int)
    ensures var r, h := RunOf(inputs), HistoryOf(inputs);
      Accept(r.state, r.limit, nonce, now).2 != Clock ==>
        (Accept(r.state, r.limit, nonce, now).2 == Rate <==>
         TooSoon(h, now) || |LastMinute(r.log, now)| >= 30)
  {
    GuardRemembersEnough(inputs, nonce, now);
  }

  /** Two recorded attempts without a reconnect between them are at least two seconds apart. */
  lemma {:induction false} ConnectionsAreSpaced(inputs: seq<Input>, i: nat, j: nat)
    requires HistoryOf(inputs).since <= i < j < |HistoryOf(inputs).log|
    ensures HistoryOf(inputs).log[j].time - HistoryOf(inputs).log[i].time >= 2_000_000
  {
    var front := inputs[..|inputs| - 1];
    var h := HistoryOf(front);
    if j < |h.log| {
      ConnectionsAreSpaced(front, i, j);
    } else {
      assert !TooSoon(h, inputs[|inputs| - 1].now);
    }
  }

  /** The clock is refused exactly when it is negative or behind the last reading that was not. */
  lemma ClockIsExact(inputs: seq<Input>, nonce: Nonce, now: int)
    ensures var r, h := RunOf(inputs), HistoryOf(inputs);
      Accept(r.state, r.limit, nonce, now).2 == Clock <==> now < 0 || (h.reading.Some? && now < h.reading.value)
  {
    GuardRemembersEnough(inputs, nonce, now);
  }
}
