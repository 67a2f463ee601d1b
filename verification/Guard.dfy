/** The firmware's challenge guard: a sliding-window rate limiter compacted in place, and a
    300-slot nonce cache with expiry and least-recently-used eviction.
    The constants interlock: 30 attempts per 60 s, ten windows, 300 slots, a 600 s lifetime. */
module Guard {
  const NONCE_CAPACITY: nat := 300
  const NONCE_TTL: int := 600_000_000
  const RATE_WINDOW: int := 60_000_000
  const CONNECTION_INTERVAL: int := 2_000_000
  const GLOBAL_LIMIT: nat := 30

  type Nonce = seq<bv8>
  datatype Entry = Entry(nonce: Nonce, admitted: int, used: int, valid: bool)
  datatype Limit = Limit(lastAttempt: int, attempted: bool)
  datatype Verdict = Ok | Replay | Rate | Clock
  datatype State = State(nonces: seq<Entry>, attempts: seq<int>, lastTime: int, timeSeen: bool)

  const FreshEntry := Entry([], 0, 0, false)
  const FreshLimit := Limit(0, false)

  function FreshState(): State {
    State(seq(NONCE_CAPACITY, _ => FreshEntry), [], 0, false)
  }

  // ---------- what one call does, as functions of the state ----------

  predicate Expired(e: Entry, now: int) {
    now >= e.admitted && now - e.admitted >= NONCE_TTL
  }

  predicate Holds(e: Entry, nonce: Nonce, now: int) {
    e.valid && !Expired(e, now) && e.nonce == nonce
  }

  function Expire(e: Entry, now: int): Entry {
    if e.valid && Expired(e, now) then e.(valid := false) else e
  }

  /** First slot from i on that holds the nonce unexpired, or |t|. */
  function Hit(t: seq<Entry>, nonce: Nonce, now: int, i: nat): (k: nat)
    requires i <= |t|
    ensures i <= k <= |t|
    ensures forall j :: i <= j < k ==> !Holds(t[j], nonce, now)
    ensures k < |t| ==> Holds(t[k], nonce, now)
    decreases |t| - i
  {
    if i == |t| || Holds(t[i], nonce, now) then i else Hit(t, nonce, now, i + 1)
  }

  /** The table after a lookup: slots before the hit lose expired entries, the hit is touched,
      and slots behind it are not even looked at. */
  function SeenTable(t: seq<Entry>, nonce: Nonce, now: int): seq<Entry> {
    Touched(t, now, Hit(t, nonce, now, 0))
  }

  function Touched(t: seq<Entry>, now: int, k: nat): seq<Entry> {
    seq(|t|, i requires 0 <= i < |t| =>
      if i < k then Expire(t[i], now) else if i == k then t[i].(used := now) else t[i])
  }

  predicate Free(e: Entry, now: int) {
    !e.valid || Expired(e, now)
  }

  function FirstFree(t: seq<Entry>, now: int, i: nat): (k: nat)
    requires i <= |t|
    ensures i <= k <= |t|
    ensures forall j :: i <= j < k ==> !Free(t[j], now)
    ensures k < |t| ==> Free(t[k], now)
    decreases |t| - i
  {
    if i == |t| || Free(t[i], now) then i else FirstFree(t, now, i + 1)
  }

  /** Least recently used of the first n slots. */
  function Coldest(t: seq<Entry>, n: nat): (v: nat)
    requires n <= |t| && |t| > 0
    ensures v < |t| && (n > 0 ==> v < n)
    ensures forall j :: 0 <= j < n ==> t[v].used <= t[j].used
  {
    if n <= 1 then 0
    else var v := Coldest(t, n - 1);
      if t[n - 1].used < t[v].used then n - 1 else v
  }

  function Victim(t: seq<Entry>, now: int): (v: nat)
    requires |t| > 0
    ensures v < |t|
  {
    var k := FirstFree(t, now, 0);
    if k < |t| then k else Coldest(t, |t|)
  }

  function Recent(a: seq<int>, now: int): seq<int> {
    if a == [] then [] else
      Recent(a[..|a| - 1], now) + (if now - a[|a| - 1] < RATE_WINDOW then [a[|a| - 1]] else [])
  }

  function Accept(s: State, limit: Limit, nonce: Nonce, now: int): (State, Limit, Verdict)
    requires |s.nonces| > 0
  {
    if now < 0 || (s.timeSeen && now < s.lastTime) then (s, limit, Clock)
    else
      var s1 := s.(lastTime := now, timeSeen := true);
      if limit.attempted && now - limit.lastAttempt < CONNECTION_INTERVAL then (s1, limit, Rate)
      else
        var live := Recent(s.attempts, now);
        if |live| == GLOBAL_LIMIT then (s1.(attempts := live), limit, Rate)
        else
          var table := SeenTable(s.nonces, nonce, now);
          var s2 := s1.(attempts := live + [now], nonces := table);
          if Hit(s.nonces, nonce, now, 0) < |s.nonces| then (s2, Limit(now, true), Replay)
          else
            (s2.(nonces := table[Victim(table, now) := Entry(nonce, now, now, true)]), Limit(now, true), Ok)
  }

  // ---------- the C code over its structs ----------

  class ConnectionLimit {
    var lastAttempt: int
    var attempted: bool
    ghost function Abs(): Limit reads this { Limit(lastAttempt, attempted) }
    constructor ()
      ensures Abs() == FreshLimit
    { lastAttempt, attempted := 0, false; }
  }

  class GuardTable {
    const nonces: array<Entry>
    const attempts: array<int>
    var lastTime: int
    var count: nat
    var timeSeen: bool

    ghost predicate Valid() reads this {
      nonces.Length == NONCE_CAPACITY && attempts.Length == GLOBAL_LIMIT && count <= GLOBAL_LIMIT
    }

    ghost function Abs(): State
      requires Valid()
      reads this, nonces, attempts
    { State(nonces[..], attempts[..count], lastTime, timeSeen) }

    constructor ()
      ensures Valid() && fresh(nonces) && fresh(attempts) && Abs() == FreshState()
      ensures nonces.Length == 300 && attempts.Length == 30
    {
      nonces := new Entry[NONCE_CAPACITY](_ => FreshEntry);
      attempts := new int[GLOBAL_LIMIT](_ => 0);
      lastTime, count, timeSeen := 0, 0, false;
    }

    method NonceSeen(nonce: Nonce, now: int) returns (seen: bool)
      requires Valid()
      modifies nonces
      ensures nonces[..] == SeenTable(old(nonces[..]), nonce, now)
      ensures seen == (Hit(old(nonces[..]), nonce, now, 0) < NONCE_CAPACITY)
    {
      ghost var t := nonces[..];
      var i := 0;
      while i < NONCE_CAPACITY
        invariant i <= NONCE_CAPACITY
        invariant Hit(t, nonce, now, 0) == Hit(t, nonce, now, i)
        invariant forall j :: 0 <= j < i ==> nonces[j] == Expire(t[j], now)
        invariant forall j :: i <= j < NONCE_CAPACITY ==> nonces[j] == t[j]
      {
        if nonces[i].valid && Expired(nonces[i], now) {
          nonces[i] := nonces[i].(valid := false);
        }
        if nonces[i].valid && nonces[i].nonce == nonce {
          nonces[i] := nonces[i].(used := now);
          return true;
        }
        i := i + 1;
      }
      seen := false;
    }

    method NonceInsert(nonce: Nonce, now: int)
      requires Valid()
      modifies nonces
      ensures nonces[..] == old(nonces[..])[Victim(old(nonces[..]), now) := Entry(nonce, now, now, true)]
    {
      ghost var t := nonces[..];
      var victim, i := 0, 0;
      while i < NONCE_CAPACITY
        invariant i <= NONCE_CAPACITY && nonces[..] == t
        invariant FirstFree(t, now, 0) == FirstFree(t, now, i)
        invariant victim == Coldest(t, i) && victim < NONCE_CAPACITY
      {
        if !nonces[i].valid || (now >= nonces[i].admitted && now - nonces[i].admitted >= NONCE_TTL) {
          victim := i;
          break;
        }
        if nonces[i].used < nonces[victim].used { victim := i; }
        i := i + 1;
      }
      assert victim == Victim(t, now);
      nonces[victim] := Entry(nonce, now, now, true);
    }

    method Compact(now: int) returns (live: nat)
      requires Valid()
      modifies attempts
      ensures live <= count && attempts[..live] == Recent(old(attempts[..count]), now)
    {
      ghost var a := attempts[..count];
      live := 0;
      var i := 0;
      while i < count
        invariant live <= i <= count
        invariant attempts[..live] == Recent(a[..i], now)
        invariant forall j :: i <= j < count ==> attempts[j] == a[j]
      {
        assert a[..i + 1][..i] == a[..i];
        if now - attempts[i] < RATE_WINDOW {
          attempts[live] := attempts[i];
          live := live + 1;
        }
        i := i + 1;
      }
      assert a[..i] == a;
    }

    method Admit(limit: ConnectionLimit, nonce: Nonce, now: int) returns (verdict: Verdict)
      requires Valid()
      modifies this, nonces, attempts, limit
      ensures Valid()
      ensures (Abs(), limit.Abs(), verdict) == Accept(old(Abs()), old(limit.Abs()), nonce, now)
    {
      if now < 0 || (timeSeen && now < lastTime) { return Clock; }
      lastTime := now;
      timeSeen := true;
      if limit.attempted && now - limit.lastAttempt < CONNECTION_INTERVAL { return Rate; }
      var live := Compact(now);
      count := live;
      if live == GLOBAL_LIMIT { return Rate; }
      limit.attempted := true;
      limit.lastAttempt := now;
      attempts[count] := now;
      count := count + 1;
      assert attempts[..count] == Recent(old(attempts[..count]), now) + [now];
      var seen := NonceSeen(nonce, now);
      if seen { return Replay; }
      NonceInsert(nonce, now);
      return Ok;
    }
  }

  /** Expiry counts from admission: a replay touches only the use time of the entry it hit. */
  lemma TouchKeepsAdmission(t: seq<Entry>, nonce: Nonce, now: int, s: nat)
    requires s < |t|
    ensures var e, k := SeenTable(t, nonce, now)[s], Hit(t, nonce, now, 0);
      e.nonce == t[s].nonce && e.admitted == t[s].admitted && e.used == (if s == k then now else t[s].used) &&
      (e.valid != t[s].valid <==> s < k && t[s].valid && now - t[s].admitted >= NONCE_TTL)
  {
  }

  /** Only when every slot is live does the least recently used one go. */
  lemma VictimIsColdest(t: seq<Entry>, now: int)
    requires |t| > 0
    ensures (exists s :: 0 <= s < |t| && Free(t[s], now)) ==>
      Free(t[Victim(t, now)], now) && forall s :: 0 <= s < Victim(t, now) ==> !Free(t[s], now)
    ensures (forall s :: 0 <= s < |t| ==> !Free(t[s], now)) ==>
      forall s :: 0 <= s < |t| ==> t[Victim(t, now)].used <= t[s].used
  {
  }

  // ---------- whole runs of one boot ----------

  /** The guard lives for the whole boot; a reconnect resets only the connection limit. */
  datatype Input = Challenge(nonce: Nonce, now: int) | Reconnect

  /** An attempt that consumed rate quota; ok when it was answered, not refused as a replay. */
  datatype Attempt = Attempt(nonce: Nonce, time: int, ok: bool)

  /** log: every recorded attempt; owner[s]: the log index that filled slot s. */
  datatype Run = Run(state: State, limit: Limit, log: seq<Attempt>, owner: seq<int>)

  function Boot(): Run {
    Run(FreshState(), FreshLimit, [], seq(NONCE_CAPACITY, _ => -1))
  }

  predicate Sized(r: Run) {
    |r.state.nonces| == NONCE_CAPACITY && |r.owner| == NONCE_CAPACITY
  }

  function Step(r: Run, input: Input): Run
    requires Sized(r)
  {
    match input
    case Reconnect => r.(limit := FreshLimit)
    case Challenge(nonce, now) =>
      var (s, limit, verdict) := Accept(r.state, r.limit, nonce, now);
      match verdict
      case Ok =>
        Run(s, limit, r.log + [Attempt(nonce, now, true)],
            r.owner[Victim(SeenTable(r.state.nonces, nonce, now), now) := |r.log|])
      case Replay => Run(s, limit, r.log + [Attempt(nonce, now, false)], r.owner)
      case _ => Run(s, limit, r.log, r.owner)
  }

  function RunOf(inputs: seq<Input>): (r: Run)
    ensures Sized(r)
  {
    if inputs == [] then Boot()
    else var r := RunOf(inputs[..|inputs| - 1]); Step(r, inputs[|inputs| - 1])
  }

  // ---------- the invariant ----------

  ghost predicate Clocked(r: Run) {
    && (forall i :: 0 <= i < |r.log| ==> 0 <= r.log[i].time <= r.state.lastTime)
    && (forall i, j :: 0 <= i <= j < |r.log| ==> r.log[i].time <= r.log[j].time)
    && (r.log != [] ==> r.state.timeSeen)
  }

  /** The attempts kept are the newest of the log; all older ones have left the window. */
  ghost predicate Windowed(attempts: seq<int>, log: seq<Attempt>, now: int) {
    && |attempts| <= GLOBAL_LIMIT && |attempts| <= |log|
    && (forall k :: 0 <= k < |attempts| ==> attempts[k] == log[|log| - |attempts| + k].time)
    && (forall i :: 0 <= i < |log| - |attempts| ==> now - log[i].time >= RATE_WINDOW)
  }

  ghost predicate Spaced(log: seq<Attempt>) {
    forall i :: 0 <= i && i + GLOBAL_LIMIT < |log| ==> log[i + GLOBAL_LIMIT].time - log[i].time >= RATE_WINDOW
  }

  ghost predicate SlotOf(nonces: seq<Entry>, owner: seq<int>, i: int, s: int)
    requires |nonces| == |owner|
  {
    0 <= s < |nonces| && nonces[s].valid && owner[s] == i
  }

  ghost predicate Owned(nonces: seq<Entry>, owner: seq<int>, log: seq<Attempt>)
    requires |nonces| == |owner|
  {
    && (forall s :: 0 <= s < |nonces| && nonces[s].valid ==>
         0 <= owner[s] < |log| && log[owner[s]] == Attempt(nonces[s].nonce, nonces[s].admitted, true))
    && (forall s, t :: 0 <= s < t < |nonces| && nonces[s].valid && nonces[t].valid ==> owner[s] != owner[t])
  }

  ghost predicate Remembered(nonces: seq<Entry>, owner: seq<int>, log: seq<Attempt>, now: int)
    requires |nonces| == |owner|
  {
    forall i :: 0 <= i < |log| && log[i].ok && now - log[i].time < NONCE_TTL ==>
      exists s :: SlotOf(nonces, owner, i, s)
  }

  ghost predicate NoEarlyReuse(log: seq<Attempt>) {
    forall i, j :: 0 <= i < j < |log| && log[i].ok && log[j].ok && log[i].nonce == log[j].nonce ==>
      log[j].time - log[i].time >= NONCE_TTL
  }

  ghost predicate Inv(r: Run) {
    && Sized(r)
    && Clocked(r)
    && Windowed(r.state.attempts, r.log, r.state.lastTime)
    && Spaced(r.log)
    && Owned(r.state.nonces, r.owner, r.log)
    && Remembered(r.state.nonces, r.owner, r.log, r.state.lastTime)
    && NoEarlyReuse(r.log)
  }

  // ---------- proofs ----------

  /** On attempts in time order, compaction keeps a suffix. */
  lemma {:induction false} RecentIsSuffix(a: seq<int>, now: int)
    requires forall i, j :: 0 <= i <= j < |a| ==> a[i] <= a[j]
    ensures |Recent(a, now)| <= |a| && Recent(a, now) == a[|a| - |Recent(a, now)|..]
    ensures forall i :: 0 <= i < |a| - |Recent(a, now)| ==> now - a[i] >= RATE_WINDOW
    ensures forall i :: |a| - |Recent(a, now)| <= i < |a| ==> now - a[i] < RATE_WINDOW
  {
    if a != [] {
      var front := a[..|a| - 1];
      RecentIsSuffix(front, now);
      var keep := Recent(front, now);
      assert forall i :: 0 <= i < |front| ==> front[i] == a[i];
      if now - a[|a| - 1] < RATE_WINDOW {
        assert Recent(a, now) == keep + [a[|a| - 1]];
        assert keep + [a[|a| - 1]] == a[|a| - 1 - |keep|..];
      } else {
        assert Recent(a, now) == keep + [];
        assert keep == [];
      }
    }
  }

  lemma CompactedWindow(attempts: seq<int>, log: seq<Attempt>, last: int, now: int)
    requires last <= now
    requires forall i, j :: 0 <= i <= j < |log| ==> log[i].time <= log[j].time
    requires Windowed(attempts, log, last)
    ensures Windowed(Recent(attempts, now), log, now)
  {
    RecentIsSuffix(attempts, now);
    var keep := Recent(attempts, now);
    forall i | 0 <= i < |log| - |keep|
      ensures now - log[i].time >= RATE_WINDOW
    {
      if i >= |log| - |attempts| {
        assert attempts[i - (|log| - |attempts|)] == log[i].time;
      }
    }
  }

  lemma AppendedWindow(attempts: seq<int>, log: seq<Attempt>, now: int, a: Attempt)
    requires Windowed(attempts, log, now) && |attempts| < GLOBAL_LIMIT && a.time == now
    requires Spaced(log)
    ensures Windowed(attempts + [now], log + [a], now)
    ensures Spaced(log + [a])
  {
  }

  /** k full windows apart: attempts 30 k positions apart are at least 60 k seconds apart. */
  lemma {:induction false} WindowChain(log: seq<Attempt>, i: nat, k: nat)
    requires Spaced(log) && i + GLOBAL_LIMIT * k < |log|
    ensures log[i + GLOBAL_LIMIT * k].time - log[i].time >= RATE_WINDOW * k
  {
    if k > 0 {
      WindowChain(log, i, k - 1);
      assert i + GLOBAL_LIMIT * k == (i + GLOBAL_LIMIT * (k - 1)) + GLOBAL_LIMIT;
    }
  }

  function Range(lo: int, hi: int): (s: set<int>)
    ensures forall x :: x in s <==> lo <= x < hi
    ensures |s| == if lo < hi then hi - lo else 0
    decreases hi - lo
  {
    if lo >= hi then {} else Range(lo, hi - 1) + {hi - 1}
  }

  lemma {:induction false} DistinctImage(owner: seq<int>, n: nat) returns (image: set<int>)
    requires n <= |owner|
    requires forall s, t :: 0 <= s < t < n ==> owner[s] != owner[t]
    ensures |image| == n && forall x :: x in image ==> exists s :: 0 <= s < n && owner[s] == x
  {
    if n == 0 { image := {}; } else {
      var rest := DistinctImage(owner, n - 1);
      assert owner[n - 1] !in rest;
      image := rest + {owner[n - 1]};
      forall x | x in image ensures exists s :: 0 <= s < n && owner[s] == x {
        if x in rest { var s :| 0 <= s < n - 1 && owner[s] == x; }
      }
    }
  }

  lemma SubsetSize<T>(a: set<T>, b: set<T>)
    requires a <= b
    ensures |a| <= |b|
  {
    assert b == a + (b - a);
  }

  /** Recording one more attempt now: everything 300 places or more back is older than 600 s. */
  lemma TenWindowsBack(log: seq<Attempt>, x: nat, now: int)
    requires Spaced(log) && forall i, j :: 0 <= i <= j < |log| ==> log[i].time <= log[j].time
    requires forall i :: 0 <= i && i + GLOBAL_LIMIT == |log| ==> now - log[i].time >= RATE_WINDOW
    requires x + NONCE_CAPACITY <= |log|
    ensures now - log[x].time >= NONCE_TTL
  {
    WindowChain(log, x, 9);
    assert x + GLOBAL_LIMIT * 9 <= |log| - GLOBAL_LIMIT;
    assert log[x + GLOBAL_LIMIT * 9].time <= log[|log| - GLOBAL_LIMIT].time;
  }

  /** The counting argument: 300 live slots would put 301 attempts into less than ten windows. */
  lemma SomeSlotIsFree(nonces: seq<Entry>, owner: seq<int>, log: seq<Attempt>, now: int)
    requires |nonces| == |owner| == NONCE_CAPACITY
    requires Owned(nonces, owner, log) && Spaced(log)
    requires forall i, j :: 0 <= i <= j < |log| ==> log[i].time <= log[j].time
    requires forall i :: 0 <= i && i + GLOBAL_LIMIT == |log| ==> now - log[i].time >= RATE_WINDOW
    ensures FirstFree(nonces, now, 0) < |nonces|
  {
    forall x: nat | x + NONCE_CAPACITY <= |log| ensures now - log[x].time >= NONCE_TTL {
      TenWindowsBack(log, x, now);
    }
    var recent := Range(|log| - NONCE_CAPACITY + 1, |log|);
    if forall s :: 0 <= s < NONCE_CAPACITY ==> nonces[s].valid && owner[s] in recent {
      var image := DistinctImage(owner, NONCE_CAPACITY);
      SubsetSize(image, recent);
      assert false;
    } else {
      var s :| 0 <= s < NONCE_CAPACITY && !(nonces[s].valid && owner[s] in recent);
      assert Free(nonces[s], now);
    }
  }

  lemma SeenKeepsOwned(nonces: seq<Entry>, owner: seq<int>, log: seq<Attempt>, nonce: Nonce, last: int, now: int)
    requires |nonces| == |owner| && last <= now
    requires Owned(nonces, owner, log) && Remembered(nonces, owner, log, last)
    ensures Owned(SeenTable(nonces, nonce, now), owner, log)
    ensures Remembered(SeenTable(nonces, nonce, now), owner, log, now)
  {
    var table := SeenTable(nonces, nonce, now);
    forall i | 0 <= i < |log| && log[i].ok && now - log[i].time < NONCE_TTL
      ensures exists s :: SlotOf(table, owner, i, s)
    {
      var s :| SlotOf(nonces, owner, i, s);
      assert SlotOf(table, owner, i, s);
    }
  }

  lemma MissedNonceIsOld(nonces: seq<Entry>, owner: seq<int>, log: seq<Attempt>, nonce: Nonce, last: int, now: int)
    requires |nonces| == |owner| && last <= now
    requires Owned(nonces, owner, log) && Remembered(nonces, owner, log, last)
    requires Hit(nonces, nonce, now, 0) == |nonces|
    ensures forall i :: 0 <= i < |log| && log[i].ok && log[i].nonce == nonce ==> now - log[i].time >= NONCE_TTL
  {
    forall i | 0 <= i < |log| && log[i].ok && log[i].nonce == nonce
      ensures now - log[i].time >= NONCE_TTL
    {
      assert forall s :: 0 <= s < |nonces| ==> !Holds(nonces[s], nonce, now);
    }
  }

  lemma InsertKeepsOwned(table: seq<Entry>, owner: seq<int>, log: seq<Attempt>, v: nat, nonce: Nonce, now: int)
    requires |table| == |owner| && v < |table| && Free(table[v], now)
    requires Owned(table, owner, log) && Remembered(table, owner, log, now)
    ensures Owned(table[v := Entry(nonce, now, now, true)], owner[v := |log|], log + [Attempt(nonce, now, true)])
    ensures Remembered(table[v := Entry(nonce, now, now, true)], owner[v := |log|],
                       log + [Attempt(nonce, now, true)], now)
  {
    var table', owner', log' :=
      table[v := Entry(nonce, now, now, true)], owner[v := |log|], log + [Attempt(nonce, now, true)];
    forall i | 0 <= i < |log'| && log'[i].ok && now - log'[i].time < NONCE_TTL
      ensures exists s :: SlotOf(table', owner', i, s)
    {
      if i == |log| {
        assert SlotOf(table', owner', i, v);
      } else {
        var s :| SlotOf(table, owner, i, s);
        assert s != v;
        assert SlotOf(table', owner', i, s);
      }
    }
  }

  lemma {:induction false} FullWindowIsOld(attempts: seq<int>, log: seq<Attempt>, now: int)
    requires Windowed(attempts, log, now) && |attempts| < GLOBAL_LIMIT
    ensures forall i :: 0 <= i && i + GLOBAL_LIMIT == |log| ==> now - log[i].time >= RATE_WINDOW
  {
  }

  /** Facts about the moment an attempt is recorded, whatever its verdict. */
  ghost predicate Recorded(r: Run, nonce: Nonce, now: int) {
    Sized(r) && Accept(r.state, r.limit, nonce, now).2 in {Ok, Replay}
  }

  lemma AttemptFacts(r: Run, nonce: Nonce, now: int)
    requires Inv(r) && Recorded(r, nonce, now)
    ensures now >= 0 && forall i :: 0 <= i < |r.log| ==> r.log[i].time <= now
    ensures var live := Recent(r.state.attempts, now);
      |live| < GLOBAL_LIMIT && Windowed(live, r.log, now)
    ensures var table := SeenTable(r.state.nonces, nonce, now);
      Owned(table, r.owner, r.log) && Remembered(table, r.owner, r.log, now) &&
      FirstFree(table, now, 0) < NONCE_CAPACITY
    ensures Hit(r.state.nonces, nonce, now, 0) == NONCE_CAPACITY ==>
      forall i :: 0 <= i < |r.log| && r.log[i].ok && r.log[i].nonce == nonce ==> now - r.log[i].time >= NONCE_TTL
  {
    var last := if r.state.timeSeen then r.state.lastTime else now;
    var live := Recent(r.state.attempts, now);
    CompactedWindow(r.state.attempts, r.log, last, now);
    FullWindowIsOld(live, r.log, now);
    SeenKeepsOwned(r.state.nonces, r.owner, r.log, nonce, last, now);
    SomeSlotIsFree(SeenTable(r.state.nonces, nonce, now), r.owner, r.log, now);
    if Hit(r.state.nonces, nonce, now, 0) == NONCE_CAPACITY {
      MissedNonceIsOld(r.state.nonces, r.owner, r.log, nonce, last, now);
    }
  }

  lemma RecordKeepsLog(r: Run, r': Run, a: Attempt)
    requires Clocked(r) && NoEarlyReuse(r.log)
    requires forall i :: 0 <= i < |r.log| ==> r.log[i].time <= a.time
    requires a.ok ==> forall i :: 0 <= i < |r.log| && r.log[i].ok && r.log[i].nonce == a.nonce ==>
                        a.time - r.log[i].time >= NONCE_TTL
    requires r'.log == r.log + [a] && r'.state.lastTime == a.time && 0 <= a.time && r'.state.timeSeen
    ensures Clocked(r') && NoEarlyReuse(r'.log)
  {
  }

  lemma RefusalKeepsOwned(table: seq<Entry>, owner: seq<int>, log: seq<Attempt>, a: Attempt, now: int)
    requires |table| == |owner| && !a.ok
    requires Owned(table, owner, log) && Remembered(table, owner, log, now)
    ensures Owned(table, owner, log + [a]) && Remembered(table, owner, log + [a], now)
  {
    forall i | 0 <= i < |log + [a]| && (log + [a])[i].ok && now - (log + [a])[i].time < NONCE_TTL
      ensures exists s :: SlotOf(table, owner, i, s)
    {
      assert log[i].ok && now - log[i].time < NONCE_TTL;
    }
  }

  lemma AssembleInv(r: Run, now: int)
    requires Sized(r) && Clocked(r) && r.state.lastTime == now
    requires Windowed(r.state.attempts, r.log, now) && Spaced(r.log)
    requires Owned(r.state.nonces, r.owner, r.log) && Remembered(r.state.nonces, r.owner, r.log, now)
    requires NoEarlyReuse(r.log)
    ensures Inv(r)
  {
  }

  lemma AttemptKeepsInv(r: Run, nonce: Nonce, now: int)
    requires Inv(r) && Recorded(r, nonce, now)
    ensures Inv(Step(r, Challenge(nonce, now)))
  {
    var ok := Accept(r.state, r.limit, nonce, now).2 == Ok;
    var a := Attempt(nonce, now, ok);
    var live, table := Recent(r.state.attempts, now), SeenTable(r.state.nonces, nonce, now);
    var r' := Step(r, Challenge(nonce, now));
    assert r'.log == r.log + [a] && r'.state.attempts == live + [now] && r'.state.lastTime == now;
    assert Clocked(r') && NoEarlyReuse(r'.log) by {
      AttemptFacts(r, nonce, now);
      RecordKeepsLog(r, r', a);
    }
    assert Windowed(r'.state.attempts, r'.log, now) && Spaced(r'.log) by {
      AttemptFacts(r, nonce, now);
      AppendedWindow(live, r.log, now, a);
    }
    assert Owned(r'.state.nonces, r'.owner, r'.log) && Remembered(r'.state.nonces, r'.owner, r'.log, now) by {
      AttemptFacts(r, nonce, now);
      if ok { InsertKeepsOwned(table, r.owner, r.log, Victim(table, now), nonce, now); }
      else { RefusalKeepsOwned(table, r.owner, r.log, a, now); }
    }
    AssembleInv(r', now);
  }

  lemma RateKeepsInv(r: Run, nonce: Nonce, now: int)
    requires Inv(r) && Sized(r) && Accept(r.state, r.limit, nonce, now).2 == Rate
    ensures Inv(Step(r, Challenge(nonce, now)))
  {
    var last := if r.state.timeSeen then r.state.lastTime else now;
    CompactedWindow(r.state.attempts, r.log, last, now);
    var r' := Step(r, Challenge(nonce, now));
    assert r'.log == r.log && r'.owner == r.owner && r'.state.nonces == r.state.nonces;
    assert Windowed(r'.state.attempts, r'.log, now);
    assert Remembered(r.state.nonces, r.owner, r.log, now);
  }

  lemma StepKeepsInv(r: Run, input: Input)
    requires Inv(r)
    ensures Inv(Step(r, input))
  {
    if input.Challenge? {
      match Accept(r.state, r.limit, input.nonce, input.now).2
      case Ok => AttemptKeepsInv(r, input.nonce, input.now);
      case Replay => AttemptKeepsInv(r, input.nonce, input.now);
      case Rate => RateKeepsInv(r, input.nonce, input.now);
      case Clock =>
    }
  }

  lemma {:induction false} RunKeepsInv(inputs: seq<Input>)
    ensures Inv(RunOf(inputs))
  {
    if inputs != [] {
      RunKeepsInv(inputs[..|inputs| - 1]);
      StepKeepsInv(RunOf(inputs[..|inputs| - 1]), inputs[|inputs| - 1]);
    }
  }

  // ---------- main results ----------

  /** First log index whose time is at least from. */
  function FirstSince(log: seq<Attempt>, from: int): (k: nat)
    ensures k <= |log|
    ensures forall i :: 0 <= i < k ==> log[i].time < from
    ensures k < |log| ==> from <= log[k].time
  {
    if log == [] then 0
    else if log[0].time >= from then 0
    else var k := FirstSince(log[1..], from); assert forall i :: 1 <= i < |log| ==> log[i] == log[1..][i - 1]; k + 1
  }

  /** At most 30 attempts are recorded in any half-open minute, whatever the clock readings,
      challenges and reconnects of the boot. */
  lemma RateLimitHolds(inputs: seq<Input>, from: int)
    ensures var log := RunOf(inputs).log;
      |set i | 0 <= i < |log| && from <= log[i].time < from + RATE_WINDOW| <= GLOBAL_LIMIT
  {
    RunKeepsInv(inputs);
    var log := RunOf(inputs).log;
    var inside := set i | 0 <= i < |log| && from <= log[i].time < from + RATE_WINDOW;
    var first := FirstSince(log, from);
    var range := Range(first, first + GLOBAL_LIMIT);
    if first + GLOBAL_LIMIT < |log| {
      assert log[first + GLOBAL_LIMIT].time >= from + RATE_WINDOW;
      assert inside <= range;
    } else {
      assert inside <= range;
    }
    SubsetSize(inside, range);
  }

  /** The least-recently-used branch never evicts a live nonce: at every insert of every boot some
      slot is invalid or expired, and that slot is the one overwritten. */
  lemma LiveNonceNeverEvicted(inputs: seq<Input>, nonce: Nonce, now: int)
    ensures var r := RunOf(inputs);
      Accept(r.state, r.limit, nonce, now).2 == Ok ==>
        var table := SeenTable(r.state.nonces, nonce, now);
        Free(table[Victim(table, now)], now)
  {
    RunKeepsInv(inputs);
    var r := RunOf(inputs);
    if Accept(r.state, r.limit, nonce, now).2 == Ok {
      AttemptFacts(r, nonce, now);
    }
  }

  /** The same nonce is never answered twice less than 600 s apart in one boot. */
  lemma NonceAnsweredOncePerLifetime(inputs: seq<Input>, i: nat, j: nat)
    requires var log := RunOf(inputs).log; i < j < |log| && log[i].ok && log[j].ok && log[i].nonce == log[j].nonce
    ensures var log := RunOf(inputs).log; log[j].time - log[i].time >= NONCE_TTL
  {
    RunKeepsInv(inputs);
  }

  /** The replay verdict is exact: a recorded attempt is refused as a replay if and only if the
      same nonce was answered less than 600 s before. */
  lemma ReplayIsExact(inputs: seq<Input>, nonce: Nonce, now: int)
    requires Recorded(RunOf(inputs), nonce, now)
    ensures var r := RunOf(inputs);
      Accept(r.state, r.limit, nonce, now).2 == Replay <==>
      exists i :: 0 <= i < |r.log| && r.log[i].ok && r.log[i].nonce == nonce && now - r.log[i].time < NONCE_TTL
  {
    RunKeepsInv(inputs);
    var r := RunOf(inputs);
    var last := if r.state.timeSeen then r.state.lastTime else now;
    var k := Hit(r.state.nonces, nonce, now, 0);
    if k < NONCE_CAPACITY {
      assert r.log[r.owner[k]] == Attempt(nonce, r.state.nonces[k].admitted, true);
    } else {
      MissedNonceIsOld(r.state.nonces, r.owner, r.log, nonce, last, now);
    }
  }
}
