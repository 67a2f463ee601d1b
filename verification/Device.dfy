/** The device session: a challenge passes the guard, takes a crash-safe counter and is signed.
    Counters are reserved in blocks in non-volatile storage before any of the block is used. */
module Device {
  import opened Wrappers
  import G = Guard

  const CHALLENGE_LENGTH: nat := 44
  const COUNTER_RESERVATION: nat := 64
  const U32_MAX: nat := 0xffff_ffff

  /** Storage: whatever the flash library answered. */
  datatype Err = EspOk | InvalidState | InvalidArg | Fail | Storage

  // ---------- counter reservation ----------

  /** The two keys that matter of the "pathnod" namespace. */
  datatype Nvs = Nvs(counter: Option<nat>, mode: Option<nat>)

  /** How one reservation went: which calls succeeded and, when one did not, how many of the writes
      issued so far reached flash all the same. Writes persist in order. */
  datatype Flash = Flash(open: bool, setCounter: bool, setMode: bool, commit: bool, persisted: nat)

  predicate Committed(f: Flash) { f.open && f.setCounter && f.setMode && f.commit }

  function WritesKept(f: Flash): nat {
    var issued := if !f.open then 0 else if !f.setCounter then 1 else 2;
    if Committed(f) || f.persisted > issued then issued else f.persisted
  }

  function AfterWrites(nvs: Nvs, ceiling: nat, f: Flash): Nvs {
    Nvs(if WritesKept(f) >= 1 then Some(ceiling) else nvs.counter,
        if WritesKept(f) >= 2 then Some(1) else nvs.mode)
  }

  datatype Ram = Ram(ready: bool, next: nat, ceiling: nat)

  function NewCeiling(next: nat): nat {
    if next + COUNTER_RESERVATION - 1 > U32_MAX then U32_MAX else next + COUNTER_RESERVATION - 1
  }

  function Allocate(nvs: Nvs, ram: Ram, f: Flash): (Nvs, Ram, Result<nat, Err>) {
    if ram.next > U32_MAX then (nvs, ram, Result.Err(InvalidState))
    else if ram.next > ram.ceiling then
      if Committed(f) then
        (AfterWrites(nvs, NewCeiling(ram.next), f),
         ram.(ceiling := NewCeiling(ram.next), next := ram.next + 1), Ok(ram.next))
      else (AfterWrites(nvs, NewCeiling(ram.next), f), ram, Result.Err(Storage))
    else (nvs, ram.(next := ram.next + 1), Ok(ram.next))
  }

  /** others: every step of initialization that is not about the counter succeeded. */
  datatype InitOutcome = InitOutcome(others: bool, readMode: bool, readCounter: bool)

  function Load(nvs: Nvs, o: InitOutcome): Ram {
    if !o.others || !o.readMode || (nvs.mode.Some? && nvs.mode.value != 1) || !o.readCounter then Ram(false, 0, 0)
    else match nvs.counter
      case None => if nvs.mode.Some? then Ram(false, 0, 0) else Ram(true, 1, 0)
      case Some(c) => Ram(c + 1 <= U32_MAX, c + 1, c)
  }

  // ---------- sessions ----------

  type Bytes = seq<bv8>

  /** A response is all zero, or the signature over a challenge and a counter. */
  datatype Response = Zero | Signed(challenge: Bytes, counter: nat)
  datatype SessionState = SessionState(connected: bool, connection: nat, valid: bool, response: Response)

  const ResetSession := SessionState(false, 0, false, Zero)

  datatype View = View(session: SessionState, limit: G.Limit, guard: G.State, nvs: Nvs, ram: Ram)

  function Answered(nvs: Nvs, ram: Ram, challenge: Bytes, f: Flash, signs: bool): (Nvs, Ram, Response, Err) {
    if !ram.ready then (nvs, ram, Zero, InvalidState)
    else
      var (nvs', ram', counter) := Allocate(nvs, ram, f);
      if counter.Err? then (nvs', ram'.(ready := false), Zero, counter.error)
      else if signs then (nvs', ram', Signed(challenge, counter.value), EspOk)
      else (nvs', ram', Zero, Fail)
  }

  function Challenge(v: View, connection: nat, challenge: Option<Bytes>, now: int, f: Flash, signs: bool): (View, Err)
    requires |v.guard.nonces| > 0
  {
    if !v.session.connected || v.session.connection != connection then (v, InvalidState)
    else
      var cleared := v.(session := v.session.(valid := false, response := Zero));
      if challenge.None? || |challenge.value| != CHALLENGE_LENGTH then (cleared, InvalidArg)
      else
        var (guard, limit, verdict) := G.Accept(v.guard, v.limit, challenge.value[..32], now);
        if verdict != G.Ok then (cleared.(guard := guard, limit := limit), InvalidState)
        else
          var (nvs, ram, response, err) := Answered(v.nvs, v.ram, challenge.value, f, signs);
          (View(v.session.(valid := err == EspOk, response := response), limit, guard, nvs, ram), err)
  }

  // ---------- the C code ----------

  /** The identity component's static variables and its storage namespace. */
  class Identity {
    var ready: bool
    var next: nat
    var ceiling: nat
    var nvs: Nvs

    ghost function Memory(): Ram reads this { Ram(ready, next, ceiling) }

    constructor (nvs: Nvs)
      ensures Memory() == Ram(false, 0, 0) && this.nvs == nvs
    { ready, next, ceiling := false, 0, 0; this.nvs := nvs; }

    method Init(o: InitOutcome)
      modifies this
      ensures nvs == old(nvs) && ready == Load(nvs, o).ready
      ensures ready ==> Memory() == Load(nvs, o)
    {
      ready, next, ceiling := false, 0, 0;
      if !o.others || !o.readMode { return; }
      if nvs.mode.Some? && nvs.mode.value != 1 { return; }
      if !o.readCounter { return; }
      if nvs.counter.None? {
        if nvs.mode.Some? { return; }
        ceiling := 0;
      } else {
        ceiling := nvs.counter.value;
      }
      next := ceiling + 1;
      ready := next <= U32_MAX;
    }

    method AllocateCounter(f: Flash) returns (counter: Result<nat, Err>)
      modifies this
      ensures (nvs, Memory(), counter) == Allocate(old(nvs), old(Memory()), f)
    {
      if next > U32_MAX { return Result.Err(InvalidState); }
      if next > ceiling {
        var top := next + COUNTER_RESERVATION - 1;
        if top > U32_MAX { top := U32_MAX; }
        nvs := AfterWrites(nvs, top, f);
        if !Committed(f) { return Result.Err(Storage); }
        ceiling := top;
      }
      counter := Ok(next);
      next := next + 1;
    }

    method Respond(challenge: Bytes, f: Flash, signs: bool) returns (response: Response, err: Err)
      requires |challenge| == CHALLENGE_LENGTH
      modifies this
      ensures (nvs, Memory(), response, err) == Answered(old(nvs), old(Memory()), challenge, f, signs)
    {
      if !ready { return Zero, InvalidState; }
      var counter := AllocateCounter(f);
      if counter.Err? {
        ready := false;
        return Zero, counter.error;
      }
      if !signs { return Zero, Fail; }
      return Signed(challenge, counter.value), EspOk;
    }
  }

  class Session {
    var connected: bool
    var connection: nat
    var valid: bool
    var response: Response
    var limit: G.ConnectionLimit

    ghost function State(): SessionState reads this { SessionState(connected, connection, valid, response) }

    constructor ()
      ensures State() == ResetSession && fresh(limit) && limit.Abs() == G.FreshLimit
    {
      connected, connection, valid, response := false, 0, false, Zero;
      limit := new G.ConnectionLimit();
    }

    method Reset()
      modifies this
      ensures State() == ResetSession && fresh(limit) && limit.Abs() == G.FreshLimit
    {
      connected, connection, valid, response := false, 0, false, Zero;
      limit := new G.ConnectionLimit();
    }

    method Connect(id: nat)
      modifies this
      ensures State() == ResetSession.(connected := true, connection := id)
      ensures fresh(limit) && limit.Abs() == G.FreshLimit
    {
      Reset();
      connected := true;
      connection := id;
    }

    method HandleChallenge(id: nat, challenge: Option<Bytes>, guard: G.GuardTable, identity: Identity,
                           now: int, f: Flash, signs: bool) returns (err: Err)
      requires guard.Valid()
      modifies this, limit, guard, guard.nonces, guard.attempts, identity
      ensures guard.Valid() && limit == old(limit)
      ensures (View(State(), limit.Abs(), guard.Abs(), identity.nvs, identity.Memory()), err)
           == Challenge(old(View(State(), limit.Abs(), guard.Abs(), identity.nvs, identity.Memory())),
                        id, challenge, now, f, signs)
    {
      if !connected || connection != id { return InvalidState; }
      valid := false;
      response := Zero;
      if challenge.None? || |challenge.value| != CHALLENGE_LENGTH { return InvalidArg; }
      var verdict := guard.Admit(limit, challenge.value[..32], now);
      if verdict != G.Ok { return InvalidState; }
      response, err := identity.Respond(challenge.value, f, signs);
      valid := err == EspOk;
    }
  }

  // ---------- runs across boots ----------

  datatype Input =
    | PowerOn(o: InitOutcome)
    | Reinit(o: InitOutcome)
    | Connect(id: nat)
    | Disconnect
    | Challenged(id: nat, challenge: Option<Bytes>, now: int, f: Flash, signs: bool)

  /** issued: the counters of every signed response since the device was made; latest: the last
      challenge written on the current connection, well formed or not. */
  datatype Sys = Sys(session: SessionState, guard: G.Run, nvs: Nvs, ram: Ram, issued: seq<nat>,
                     latest: Option<Bytes>)

  function ViewOf(s: Sys): View {
    View(s.session, s.guard.limit, s.guard.state, s.nvs, s.ram)
  }

  function Step(s: Sys, input: Input): (s': Sys)
    requires G.Sized(s.guard)
    ensures G.Sized(s'.guard)
  {
    match input
    case PowerOn(o) => Sys(ResetSession, G.Boot(), s.nvs, Load(s.nvs, o), s.issued, None)
    case Reinit(o) => s.(ram := Load(s.nvs, o))
    case Connect(id) =>
      s.(session := ResetSession.(connected := true, connection := id), guard := G.Step(s.guard, G.Reconnect),
         latest := None)
    case Disconnect => s.(session := ResetSession, guard := G.Step(s.guard, G.Reconnect), latest := None)
    case Challenged(id, challenge, now, f, signs) =>
      var (v, err) := Challenge(ViewOf(s), id, challenge, now, f, signs);
      var mine := s.session.connected && s.session.connection == id;
      var guarded := mine && challenge.Some? && |challenge.value| == CHALLENGE_LENGTH;
      Sys(v.session, if guarded then G.Step(s.guard, G.Challenge(challenge.value[..32], now)) else s.guard,
          v.nvs, v.ram, if mine && err == EspOk then s.issued + [v.session.response.counter] else s.issued,
          if mine then challenge else s.latest)
  }

  /** A device leaves the factory with empty storage, or with a counter stored before the mode
      marker existed. */
  function RunOf(factory: Option<nat>, inputs: seq<Input>): (s: Sys)
    ensures G.Sized(s.guard)
  {
    if inputs == [] then Sys(ResetSession, G.Boot(), Nvs(factory, None), Ram(false, 0, 0), [], None)
    else Step(RunOf(factory, inputs[..|inputs| - 1]), inputs[|inputs| - 1])
  }

  function Durable(nvs: Nvs): nat {
    match nvs.counter case None => 0 case Some(c) => c
  }

  ghost predicate CounterInv(nvs: Nvs, ram: Ram, issued: seq<nat>) {
    && (forall i, j :: 0 <= i < j < |issued| ==> issued[i] < issued[j])
    && (forall i :: 0 <= i < |issued| ==> 0 < issued[i] <= Durable(nvs))
    && (forall i :: 0 <= i < |issued| ==> issued[i] <= U32_MAX)
    && (ram.ready ==>
         ram.ceiling == Durable(nvs) && 0 < ram.next <= ram.ceiling + 1 &&
         forall i :: 0 <= i < |issued| ==> issued[i] < ram.next)
  }

  /** One allocation hands out `next` under a ceiling that is durable before it returns. */
  lemma AllocateCovers(nvs: Nvs, ram: Ram, f: Flash)
    requires ram.ceiling == Durable(nvs) && 0 < ram.next <= ram.ceiling + 1
    ensures var (nvs', ram', counter) := Allocate(nvs, ram, f);
      Durable(nvs) <= Durable(nvs') && ram'.ready == ram.ready &&
      (counter.Ok? ==>
        counter.value == ram.next <= Durable(nvs') && ram.next <= U32_MAX && ram'.next == ram.next + 1 &&
        ram'.ceiling == Durable(nvs'))
  {
  }

  lemma RespondKeepsCounters(nvs: Nvs, ram: Ram, issued: seq<nat>, challenge: Bytes, f: Flash, signs: bool)
    requires CounterInv(nvs, ram, issued)
    ensures var (nvs', ram', response, err) := Answered(nvs, ram, challenge, f, signs);
      (err == EspOk <==> response.Signed?) &&
      (err == EspOk ==> response.challenge == challenge) &&
      CounterInv(nvs', ram', if err == EspOk then issued + [response.counter] else issued) &&
      Durable(nvs) <= Durable(nvs')
  {
    if ram.ready { AllocateCovers(nvs, ram, f); }
  }

  lemma LoadKeepsCounters(nvs: Nvs, ram: Ram, issued: seq<nat>, o: InitOutcome)
    requires CounterInv(nvs, ram, issued)
    ensures CounterInv(nvs, Load(nvs, o), issued)
  {
  }

  ghost predicate SessionInv(s: Sys) {
    && (s.session.valid <==> s.session.response.Signed?)
    && (s.session.valid ==>
         s.issued != [] && s.latest == Some(s.session.response.challenge) &&
         s.session.response.counter == s.issued[|s.issued| - 1] &&
         |s.session.response.challenge| == CHALLENGE_LENGTH &&
         s.guard.log != [] && s.guard.log[|s.guard.log| - 1].ok &&
         s.guard.log[|s.guard.log| - 1].nonce == s.session.response.challenge[..32])
  }

  ghost predicate Inv(s: Sys) {
    G.Inv(s.guard) && CounterInv(s.nvs, s.ram, s.issued) && SessionInv(s)
  }

  lemma BootKeepsGuard()
    ensures G.Inv(G.Boot())
  {
    G.RunKeepsInv([]);
    assert G.RunOf([]) == G.Boot();
  }

  lemma StepKeepsInv(s: Sys, input: Input)
    requires Inv(s)
    ensures Inv(Step(s, input)) && Durable(s.nvs) <= Durable(Step(s, input).nvs)
  {
    match input
    case PowerOn(o) =>
      BootKeepsGuard();
      LoadKeepsCounters(s.nvs, s.ram, s.issued, o);
    case Reinit(o) => LoadKeepsCounters(s.nvs, s.ram, s.issued, o);
    case Connect(id) => G.StepKeepsInv(s.guard, G.Reconnect);
    case Disconnect => G.StepKeepsInv(s.guard, G.Reconnect);
    case Challenged(id, challenge, now, f, signs) =>
      if s.session.connected && s.session.connection == id && challenge.Some? &&
         |challenge.value| == CHALLENGE_LENGTH {
        GuardedChallenge(s, challenge.value, now, f, signs);
      } else {
        RefusedChallenge(s, id, challenge, now, f, signs);
      }
  }

  lemma RefusedChallenge(s: Sys, id: nat, challenge: Option<Bytes>, now: int, f: Flash, signs: bool)
    requires Inv(s)
    requires !s.session.connected || s.session.connection != id || challenge.None? ||
      |challenge.value| != CHALLENGE_LENGTH
    ensures var s' := Step(s, Challenged(id, challenge, now, f, signs)); Inv(s') && s'.nvs == s.nvs
  {
  }

  lemma AnswerKeepsSession(s: Sys, c: Bytes, now: int, f: Flash, signs: bool)
    requires G.Sized(s.guard) && CounterInv(s.nvs, s.ram, s.issued) && SessionInv(s)
    requires s.session.connected && |c| == CHALLENGE_LENGTH
    ensures var s' := Step(s, Challenged(s.session.connection, Some(c), now, f, signs));
      CounterInv(s'.nvs, s'.ram, s'.issued) && SessionInv(s') && Durable(s.nvs) <= Durable(s'.nvs)
  {
    RespondKeepsCounters(s.nvs, s.ram, s.issued, c, f, signs);
    var s' := Step(s, Challenged(s.session.connection, Some(c), now, f, signs));
    var verdict := G.Accept(s.guard.state, s.guard.limit, c[..32], now).2;
    if verdict == G.Ok {
      assert s'.guard.log == s.guard.log + [G.Attempt(c[..32], now, true)];
    }
  }

  lemma GuardedChallenge(s: Sys, c: Bytes, now: int, f: Flash, signs: bool)
    requires Inv(s) && s.session.connected && |c| == CHALLENGE_LENGTH
    ensures var s' := Step(s, Challenged(s.session.connection, Some(c), now, f, signs));
      Inv(s') && Durable(s.nvs) <= Durable(s'.nvs)
  {
    G.StepKeepsInv(s.guard, G.Challenge(c[..32], now));
    AnswerKeepsSession(s, c, now, f, signs);
  }

  lemma {:induction false} RunKeepsInv(factory: Option<nat>, inputs: seq<Input>)
    ensures Inv(RunOf(factory, inputs))
  {
    if inputs == [] { BootKeepsGuard(); } else {
      RunKeepsInv(factory, inputs[..|inputs| - 1]);
      StepKeepsInv(RunOf(factory, inputs[..|inputs| - 1]), inputs[|inputs| - 1]);
    }
  }

  // ---------- main results ----------

  /** Across any boots, re-initializations, crashes and ambiguous commits the counters of signed
      responses strictly increase, and none exceeds the ceiling already durable in flash. */
  lemma CountersNeverRepeat(factory: Option<nat>, inputs: seq<Input>, i: nat, j: nat)
    requires i < j < |RunOf(factory, inputs).issued|
    ensures var s := RunOf(factory, inputs);
      s.issued[i] < s.issued[j] <= Durable(s.nvs) && s.issued[j] <= U32_MAX
  {
    RunKeepsInv(factory, inputs);
  }

  /** Every counter ever issued, the first included, is covered by the ceiling durable in flash. */
  lemma IssuedAreDurable(factory: Option<nat>, inputs: seq<Input>, j: nat)
    requires j < |RunOf(factory, inputs).issued|
    ensures var s := RunOf(factory, inputs); 0 < s.issued[j] <= Durable(s.nvs) && s.issued[j] <= U32_MAX
  {
    RunKeepsInv(factory, inputs);
  }

  /** The durable ceiling never goes back, so what later boots load covers all that was issued. */
  lemma {:induction false} CeilingNeverFalls(factory: Option<nat>, inputs: seq<Input>, k: nat)
    requires k <= |inputs|
    ensures Durable(RunOf(factory, inputs[..k]).nvs) <= Durable(RunOf(factory, inputs).nvs)
    decreases |inputs|
  {
    if k < |inputs| {
      var front := inputs[..|inputs| - 1];
      assert front[..k] == inputs[..k];
      CeilingNeverFalls(factory, front, k);
      RunKeepsInv(factory, front);
      StepKeepsInv(RunOf(factory, front), inputs[|inputs| - 1]);
    } else {
      assert inputs[..k] == inputs;
    }
  }

  /** A session shows a response exactly when it is marked valid, and then it is the answer to the
      latest challenge of this connection, which the guard admitted last, under the newest counter. */
  lemma ValidSessionAnswersLatest(factory: Option<nat>, inputs: seq<Input>)
    ensures SessionInv(RunOf(factory, inputs))
  {
    RunKeepsInv(factory, inputs);
  }

  // ---------- what each challenge does ----------

  /** A whole answer: the guard admits the nonce, the identity is up, a counter is left, reserved or
      reservable, and the signature succeeds. */
  ghost predicate Answers(s: Sys, id: nat, challenge: Option<Bytes>, now: int, f: Flash, signs: bool) {
    s.session.connected && s.session.connection == id && challenge.Some? && |challenge.value| == 44 &&
    |s.guard.state.nonces| > 0 && G.Accept(s.guard.state, s.guard.limit, challenge.value[..32], now).2 == G.Ok &&
    s.ram.ready && s.ram.next <= 0xffff_ffff && (s.ram.next <= s.ram.ceiling || Committed(f)) && signs
  }

  /** A response is signed if and only if all of that holds; then it is over this challenge, under the
      next counter, and the session shows it. */
  lemma AnswerIsExact(s: Sys, id: nat, challenge: Option<Bytes>, now: int, f: Flash, signs: bool)
    requires Inv(s)
    ensures var s' := Step(s, Challenged(id, challenge, now, f, signs));
      (Answers(s, id, challenge, now, f, signs) ==>
        s'.session == s.session.(valid := true, response := Signed(challenge.value, s.ram.next)) &&
        s'.issued == s.issued + [s.ram.next] && s'.ram.next == s.ram.next + 1 && s'.ram.ready) &&
      (!Answers(s, id, challenge, now, f, signs) ==> s'.issued == s.issued)
  {
  }

  /** Refusals cost no more than they must: another connection's challenge changes nothing; a malformed
      one clears the session; one the guard refuses also leaves the counters alone; a failed signature
      spends its counter; a failed reservation closes the identity without spending one. */
  lemma RefusalsAreCheap(s: Sys, id: nat, challenge: Option<Bytes>, now: int, f: Flash, signs: bool)
    requires Inv(s) && !Answers(s, id, challenge, now, f, signs)
    ensures var s' := Step(s, Challenged(id, challenge, now, f, signs));
      var mine := s.session.connected && s.session.connection == id;
      var formed := challenge.Some? && |challenge.value| == 44;
      var admitted := mine && formed && G.Accept(s.guard.state, s.guard.limit, challenge.value[..32], now).2 == G.Ok;
      (!mine ==> s' == s) &&
      (mine ==> s'.session == s.session.(valid := false, response := Zero)) &&
      (!mine || !formed ==> s'.guard == s.guard) &&
      (!admitted ==> s'.nvs == s.nvs && s'.ram == s.ram) &&
      (admitted && s.ram.ready && s'.ram.ready ==> !signs && s'.ram.next == s.ram.next + 1) &&
      (admitted && !s'.ram.ready ==> s'.ram.next == s.ram.next)
  {
  }

  /** The error tells which check failed first. */
  lemma ErrorsAreExact(s: Sys, id: nat, challenge: Option<Bytes>, now: int, f: Flash, signs: bool)
    requires Inv(s)
    ensures var err := Challenge(ViewOf(s), id, challenge, now, f, signs).1;
      var mine := s.session.connected && s.session.connection == id;
      var formed := challenge.Some? && |challenge.value| == 44;
      var admitted := mine && formed && G.Accept(s.guard.state, s.guard.limit, challenge.value[..32], now).2 == G.Ok;
      var counting := admitted && s.ram.ready && s.ram.next <= 0xffff_ffff;
      var reserved := s.ram.next <= s.ram.ceiling || Committed(f);
      (err == EspOk <==> Answers(s, id, challenge, now, f, signs)) &&
      (err == InvalidArg <==> mine && !formed) &&
      (err == Storage <==> counting && !reserved) &&
      (err == Fail <==> counting && reserved && !signs)
  {
  }

  lemma ClosedIdentity(s: Sys, input: Input)
    requires Inv(s) && !s.ram.ready && !input.PowerOn? && !input.Reinit?
    ensures Step(s, input).issued == s.issued && !Step(s, input).ram.ready && Step(s, input).nvs == s.nvs
  {
  }

  /** After a failed reservation nothing is signed and no flash is written before the next initialization. */
  lemma {:induction false} ClosedUntilInit(factory: Option<nat>, inputs: seq<Input>, k: nat)
    requires k <= |inputs| && !RunOf(factory, inputs[..k]).ram.ready
    requires forall i :: k <= i < |inputs| ==> !inputs[i].PowerOn? && !inputs[i].Reinit?
    ensures var s, early := RunOf(factory, inputs), RunOf(factory, inputs[..k]);
      s.issued == early.issued && s.nvs == early.nvs && !s.ram.ready
    decreases |inputs|
  {
    if k < |inputs| {
      var front := inputs[..|inputs| - 1];
      assert front[..k] == inputs[..k];
      ClosedUntilInit(factory, front, k);
      RunKeepsInv(factory, front);
      ClosedIdentity(RunOf(factory, front), inputs[|inputs| - 1]);
    } else {
      assert inputs[..k] == inputs;
    }
  }

  // ---------- reservations ----------

  /** Inside a block no flash is needed or written, whatever state it is in. */
  lemma BlockNeedsNoFlash(nvs: Nvs, ram: Ram, f: Flash)
    requires ram.next <= ram.ceiling <= 0xffff_ffff
    ensures Allocate(nvs, ram, f) == (nvs, ram.(next := ram.next + 1), Ok(ram.next))
  {
  }

  /** A committed reservation covers 64 counters, or as many as are left. */
  lemma BlockIsWhole(nvs: Nvs, ram: Ram, f: Flash)
    requires ram.ceiling < ram.next <= 0xffff_ffff && Committed(f)
    ensures var (nvs', ram', counter) := Allocate(nvs, ram, f);
      counter == Ok(ram.next) && nvs' == Nvs(Some(ram'.ceiling), Some(1)) && ram'.next == ram.next + 1 &&
      ram'.ceiling <= 0xffff_ffff &&
      (ram'.ceiling - ram.next + 1 == 64 || (ram'.ceiling == 0xffff_ffff < ram.next + 63))
  {
  }

  // ---------- storage ----------

  /** The marker is only ever written behind a counter. */
  ghost predicate StorageOk(nvs: Nvs) {
    (nvs.mode.Some? ==> nvs.mode.value == 1 && nvs.counter.Some?) && Durable(nvs) <= 0xffff_ffff
  }

  lemma StepKeepsStorage(s: Sys, input: Input)
    requires G.Sized(s.guard) && StorageOk(s.nvs)
    ensures StorageOk(Step(s, input).nvs)
  {
  }

  lemma {:induction false} RunKeepsStorage(factory: Option<nat>, inputs: seq<Input>)
    requires factory.Some? ==> factory.value <= 0xffff_ffff
    ensures StorageOk(RunOf(factory, inputs).nvs)
  {
    if inputs != [] {
      RunKeepsStorage(factory, inputs[..|inputs| - 1]);
      StepKeepsStorage(RunOf(factory, inputs[..|inputs| - 1]), inputs[|inputs| - 1]);
    }
  }

  /** The refusal of a marker without its counter is for damage from outside: whatever writes were cut
      short, an initialization whose reads succeed brings the identity up, one past the durable ceiling,
      if and only if a counter is left. */
  lemma RebootRecovers(factory: Option<nat>, inputs: seq<Input>, o: InitOutcome)
    requires factory.Some? ==> factory.value <= 0xffff_ffff
    ensures var nvs := RunOf(factory, inputs).nvs;
      Load(nvs, o).ready <==> o.others && o.readMode && o.readCounter && Durable(nvs) < 0xffff_ffff
    ensures var nvs := RunOf(factory, inputs).nvs;
      Load(nvs, o).ready ==> Load(nvs, o).next == Durable(nvs) + 1 && Load(nvs, o).ceiling == Durable(nvs)
  {
    RunKeepsStorage(factory, inputs);
  }

  /** Storage it did not write like that is refused: a marker that is not 1, or one without a counter. */
  lemma DamageIsRefused(nvs: Nvs, o: InitOutcome)
    requires nvs.mode.Some? && (nvs.mode.value != 1 || nvs.counter.None?)
    ensures !Load(nvs, o).ready
  {
  }
}
