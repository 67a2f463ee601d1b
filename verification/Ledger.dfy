/** On-chain payments: escrows, per-pseudonym payout accounts and vaults, slot limits, claims and
    policy changes, and the off-chain quote that predicts which submissions are paid. */
module Ledger {
  import opened Powers
  import opened Wrappers

  const U64_MAX: nat := 0xffff_ffff_ffff_ffff
  const U16_MAX: nat := 0xffff
  const U8_MAX: nat := 0xff
  const BPS: nat := 10_000
  const CLAIM_WINDOW: int := 300

  type Id = nat
  type Account = (Id, Id)

  datatype Protocol = Protocol(policyVersion: nat, reward: nat, slots: nat, escrow: nat)
  datatype Payout = Payout(gross: nat, fees: nat, available: nat, withdrawn: nat, nonce: nat, key: Option<Id>)
  datatype EpochKey = EpochKey(protocol: Id, device: Id, epoch: nat)
  datatype Epoch = Epoch(observers: nat, paid: nat)

  /** Payouts and vaults are keyed by protocol and pseudonym. */
  datatype State = State(protocols: map<Id, Protocol>, payouts: map<Account, Payout>, vaults: map<Account, nat>,
                         epochs: map<EpochKey, Epoch>, feeVault: nat, feeBps: nat)

  datatype Code = Paid | Unpaid | Done | Missing | Refused | CountOverflow | Overflow | InvalidPolicy |
                  InvalidPayout | InvalidAuthorization | Unauthorized | TokenError

  const NoPayout := Payout(0, 0, 0, 0, 0, None)

  function PayoutAt(s: State, a: Account): Payout { if a in s.payouts then s.payouts[a] else NoPayout }
  function VaultAt(s: State, a: Account): nat { if a in s.vaults then s.vaults[a] else 0 }
  function EpochAt(s: State, k: EpochKey): Epoch { if k in s.epochs then s.epochs[k] else Epoch(0, 0) }

  /** The largest whole fee within the rate. */
  function Fee(gross: nat, bps: nat): (fee: nat)
    requires bps <= BPS
    ensures fee <= gross && fee * BPS <= gross * bps < (fee + 1) * BPS
  {
    FeeBound(gross, bps);
    gross * bps / BPS
  }

  lemma FeeBound(gross: nat, bps: nat)
    requires bps <= BPS
    ensures gross * bps / BPS <= gross
  {
    assert gross * bps <= gross * BPS;
  }

  // ---------- the instructions, as functions of the accounts ----------

  datatype Args =
    | Submit(protocol: Id, device: Id, epoch: nat, pseudonym: Id, authorized: bool)
    | Claim(account: Account, amount: nat, nonce: nat, expires: int, now: int, key: Id, authorized: bool)
    | UpdateFees(bps: nat)
    | UpdatePolicy(id: Id, version: nat, reward: nat, slots: nat)
    | CreateProtocol(id: Id, version: nat, reward: nat, slots: nat)
    | Fund(id: Id, amount: nat)
    | Donate(account: Account, amount: nat)

  predicate WouldPay(p: Protocol, e: Epoch) {
    p.reward > 0 && e.paid < p.slots && p.escrow >= p.reward
  }

  function SubmitPaid(s: State, id: Id, k: EpochKey, a: Account): (State, Code)
    requires id in s.protocols && s.feeBps <= BPS && WouldPay(s.protocols[id], EpochAt(s, k))
  {
    var p, e, payout := s.protocols[id], EpochAt(s, k), PayoutAt(s, a);
    var fee := Fee(p.reward, s.feeBps);
    var net := p.reward - fee;
    if VaultAt(s, a) + net > U64_MAX || s.feeVault + fee > U64_MAX then (s, TokenError)
    else if payout.gross + p.reward > U64_MAX || payout.fees + fee > U64_MAX || payout.available + net > U64_MAX ||
            e.paid + 1 > U8_MAX then (s, Overflow)
    else (s.(protocols := s.protocols[id := p.(escrow := p.escrow - net - fee)],
             vaults := s.vaults[a := VaultAt(s, a) + net],
             feeVault := s.feeVault + fee,
             payouts := s.payouts[a := payout.(gross := payout.gross + p.reward, fees := payout.fees + fee,
                                               available := payout.available + net)],
             epochs := s.epochs[k := Epoch(e.observers + 1, e.paid + 1)]), Paid)
  }

  predicate ClaimAllowed(payout: Payout, args: Args)
    requires args.Claim?
  {
    args.amount > 0 && args.amount <= payout.available && args.nonce == payout.nonce &&
    args.expires >= args.now && args.expires <= args.now + CLAIM_WINDOW
  }

  function ExecuteSubmit(s: State, args: Args): (State, Code)
    requires s.feeBps <= BPS && args.Submit?
  {
    var id, a := args.protocol, (args.protocol, args.pseudonym);
    var k := EpochKey(id, args.device, args.epoch);
    var e := EpochAt(s, k);
    if id !in s.protocols then (s, Missing)
    else if !args.authorized then (s, Refused)
    else if e.observers >= U16_MAX then (s, CountOverflow)
    else if WouldPay(s.protocols[id], e) then SubmitPaid(s, id, k, a)
    else (Counted(s, k, a), Unpaid)
  }

  /** The payout account and its vault exist from the first submission on. */
  function Counted(s: State, k: EpochKey, a: Account): State {
    s.(payouts := s.payouts[a := PayoutAt(s, a)], vaults := s.vaults[a := VaultAt(s, a)],
       epochs := s.epochs[k := Epoch(EpochAt(s, k).observers + 1, EpochAt(s, k).paid)])
  }

  function ExecuteClaim(s: State, args: Args): (State, Code)
    requires args.Claim?
  {
    var a, amount := args.account, args.amount;
    if a !in s.payouts then (s, Missing)
    else
      var payout := s.payouts[a];
      if !ClaimAllowed(payout, args) then (s, InvalidPayout)
      else if payout.key.None? && !args.authorized then (s, InvalidAuthorization)
      else if payout.key.Some? && payout.key.value != args.key then (s, Unauthorized)
      else if VaultAt(s, a) < amount then (s, TokenError)
      else if payout.withdrawn + amount > U64_MAX || payout.nonce + 1 > U64_MAX then (s, Overflow)
      else (s.(vaults := s.vaults[a := VaultAt(s, a) - amount],
               payouts := s.payouts[a := payout.(available := payout.available - amount,
                 withdrawn := payout.withdrawn + amount, nonce := payout.nonce + 1, key := Some(args.key))]), Done)
  }

  function ExecuteAdmin(s: State, args: Args): (State, Code)
    requires !args.Submit? && !args.Claim?
  {
    match args
    case UpdateFees(bps) => if bps > BPS then (s, InvalidPolicy) else (s.(feeBps := bps), Done)
    case UpdatePolicy(id, version, reward, slots) =>
      if id !in s.protocols then (s, Missing)
      else if version <= s.protocols[id].policyVersion || (slots > 0 && reward == 0) then (s, InvalidPolicy)
      else
        var p := s.protocols[id].(policyVersion := version, reward := reward, slots := slots);
        (s.(protocols := s.protocols[id := p]), Done)
    case CreateProtocol(id, version, reward, slots) =>
      if id in s.protocols || (slots > 0 && reward == 0) then (s, InvalidPolicy)
      else (s.(protocols := s.protocols[id := Protocol(version, reward, slots, 0)]), Done)
    case Fund(id, amount) =>
      if id !in s.protocols then (s, Missing)
      else if s.protocols[id].escrow + amount > U64_MAX then (s, TokenError)
      else (s.(protocols := s.protocols[id := s.protocols[id].(escrow := s.protocols[id].escrow + amount)]), Done)
    case Donate(a, amount) =>
      if a !in s.vaults then (s, Missing)
      else if s.vaults[a] + amount > U64_MAX then (s, TokenError)
      else (s.(vaults := s.vaults[a := s.vaults[a] + amount]), Done)
  }

  function Execute(s: State, args: Args): (State, Code)
    requires s.feeBps <= BPS
  {
    match args
    case Submit(_, _, _, _, _) => ExecuteSubmit(s, args)
    case Claim(_, _, _, _, _, _, _) => ExecuteClaim(s, args)
    case _ => ExecuteAdmin(s, args)
  }

  lemma Overwritten<K, V>(m: map<K, V>, k: K, first: V, second: V)
    ensures m[k := first][k := second] == m[k := second]
  {
  }

  // ---------- the accounts, written in place ----------

  class Program {
    var protocols: map<Id, Protocol>
    var payouts: map<Account, Payout>
    var vaults: map<Account, nat>
    var epochs: map<EpochKey, Epoch>
    var feeVault: nat
    var feeBps: nat

    ghost predicate Valid() reads this { feeBps <= BPS }
    function Abs(): State reads this { State(protocols, payouts, vaults, epochs, feeVault, feeBps) }

    constructor (bps: nat)
      requires bps <= BPS
      ensures Valid() && Abs() == State(map[], map[], map[], map[], 0, bps)
    {
      protocols, payouts, vaults, epochs, feeVault, feeBps := map[], map[], map[], map[], 0, bps;
    }

    /** An instruction that fails leaves every account as it was. */
    method Abort(saved: State)
      modifies this
      ensures Abs() == saved
    {
      protocols, payouts, vaults := saved.protocols, saved.payouts, saved.vaults;
      epochs, feeVault, feeBps := saved.epochs, saved.feeVault, saved.feeBps;
    }

    /** Count first, then pay if the slot, the reward and the escrow allow it. */
    method SubmitObservation(id: Id, device: Id, epoch: nat, pseudonym: Id, authorized: bool) returns (code: Code)
      requires Valid()
      modifies this
      ensures Valid()
      ensures (Abs(), code) == Execute(old(Abs()), Submit(id, device, epoch, pseudonym, authorized))
    {
      if id !in protocols { return Missing; }
      if !authorized { return Refused; }
      var begin, k, a := Abs(), EpochKey(id, device, epoch), (id, pseudonym);
      var e, payout, vault := EpochAt(begin, k), PayoutAt(begin, a), VaultAt(begin, a);
      if e.observers >= U16_MAX { return CountOverflow; }
      epochs := epochs[k := e.(observers := e.observers + 1)];
      payouts, vaults := payouts[a := payout], vaults[a := vault];
      if !WouldPay(protocols[id], e) { return Unpaid; }
      code := PaySlot(begin, id, k, a);
    }

    /** Two transfers out of the escrow, then the credit; a failure undoes the whole instruction. */
    method PaySlot(begin: State, id: Id, k: EpochKey, a: Account) returns (code: Code)
      requires Valid() && begin.feeBps <= BPS
      requires id in begin.protocols && WouldPay(begin.protocols[id], EpochAt(begin, k))
      requires Abs() == Counted(begin, k, a)
      modifies this
      ensures (Abs(), code) == SubmitPaid(begin, id, k, a)
    {
      var p, e, payout := protocols[id], EpochAt(begin, k), payouts[a];
      var fee := Fee(p.reward, feeBps);
      var net := p.reward - fee;
      var moved := Transfer(id, a, net, fee);
      if !moved { Abort(begin); return TokenError; }
      if payout.gross + p.reward > U64_MAX || payout.fees + fee > U64_MAX || payout.available + net > U64_MAX ||
         e.paid + 1 > U8_MAX { Abort(begin); return Overflow; }
      payouts := payouts[a := payout.(gross := payout.gross + p.reward, fees := payout.fees + fee,
                                      available := payout.available + net)];
      epochs := epochs[k := Epoch(e.observers + 1, e.paid + 1)];
      Overwritten(begin.payouts, a, payout, payouts[a]);
      Overwritten(begin.vaults, a, VaultAt(begin, a), vaults[a]);
      Overwritten(begin.epochs, k, Epoch(e.observers + 1, e.paid), epochs[k]);
      return Paid;
    }

    /** Net to the pseudonym's vault and fee to the fee vault, out of the escrow. */
    method Transfer(id: Id, a: Account, net: nat, fee: nat) returns (ok: bool)
      requires id in protocols && a in vaults && net + fee <= protocols[id].escrow
      modifies this`protocols, this`vaults, this`feeVault
      ensures ok == (old(vaults)[a] + net <= U64_MAX && old(feeVault) + fee <= U64_MAX)
      ensures ok ==> vaults == old(vaults)[a := old(vaults)[a] + net] && feeVault == old(feeVault) + fee
      ensures ok ==> protocols == old(protocols[id := protocols[id].(escrow := protocols[id].escrow - net - fee)])
      ensures !ok ==> vaults == old(vaults) && feeVault == old(feeVault) && protocols == old(protocols)
    {
      var p := protocols[id];
      if vaults[a] + net > U64_MAX || feeVault + fee > U64_MAX { return false; }
      protocols := protocols[id := p.(escrow := p.escrow - net - fee)];
      vaults := vaults[a := vaults[a] + net];
      feeVault := feeVault + fee;
      return true;
    }

    method ClaimPayout(a: Account, amount: nat, nonce: nat, expires: int, now: int, key: Id, authorized: bool)
      returns (code: Code)
      requires Valid()
      modifies this
      ensures Valid()
      ensures (Abs(), code) == Execute(old(Abs()), Claim(a, amount, nonce, expires, now, key, authorized))
    {
      if a !in payouts { return Missing; }
      var payout, vault := payouts[a], VaultAt(Abs(), a);
      if !(amount > 0 && amount <= payout.available && nonce == payout.nonce && expires >= now &&
           expires <= now + CLAIM_WINDOW) { return InvalidPayout; }
      if payout.key.None? {
        if !authorized { return InvalidAuthorization; }
      } else if payout.key.value != key { return Unauthorized; }
      if vault < amount { return TokenError; }
      if payout.withdrawn + amount > U64_MAX || payout.nonce + 1 > U64_MAX { return Overflow; }
      vaults := vaults[a := vault - amount];
      payouts := payouts[a := payout.(available := payout.available - amount, withdrawn := payout.withdrawn + amount,
                                      nonce := payout.nonce + 1, key := Some(key))];
      return Done;
    }
  }

  // ---------- runs and books ----------

  /** What the outside saw: everything paid into each escrow, everything credited from it, and how
      many claims each payout account had. */
  datatype Books = Books(deposited: map<Id, nat>, credited: map<Id, nat>, claims: map<Account, nat>)
  datatype Run = Run(s: State, books: Books)

  function At<K>(m: map<K, nat>, k: K): nat { if k in m then m[k] else 0 }

  function Step(r: Run, args: Args): Run
    requires r.s.feeBps <= BPS
  {
    var out := Execute(r.s, args);
    var b := r.books;
    Run(out.0,
        if out.1 == Paid && args.Submit? then
          b.(credited := b.credited[args.protocol := At(b.credited, args.protocol) +
             (if args.protocol in r.s.protocols then r.s.protocols[args.protocol].reward else 0)])
        else if out.1 == Done && args.Fund? then
          b.(deposited := b.deposited[args.id := At(b.deposited, args.id) + args.amount])
        else if out.1 == Done && args.Claim? then
          b.(claims := b.claims[args.account := At(b.claims, args.account) + 1])
        else b)
  }

  function RunOf(bps: nat, ops: seq<Args>): (r: Run)
    requires bps <= BPS
    ensures r.s.feeBps <= BPS
  {
    if ops == [] then Run(State(map[], map[], map[], map[], 0, bps), Books(map[], map[], map[]))
    else Step(RunOf(bps, ops[..|ops| - 1]), ops[|ops| - 1])
  }

  // ---------- the invariant ----------

  ghost predicate PayoutOk(payout: Payout) {
    payout.gross == payout.fees + payout.available + payout.withdrawn && payout.gross <= U64_MAX
  }

  ghost predicate AccountOk(r: Run, a: Account) {
    if a in r.s.payouts then
      PayoutOk(r.s.payouts[a]) && VaultAt(r.s, a) >= r.s.payouts[a].available &&
      r.s.payouts[a].nonce == At(r.books.claims, a) <= r.s.payouts[a].withdrawn
    else At(r.books.claims, a) == 0
  }

  ghost predicate BookOk(r: Run, id: Id) {
    && At(r.books.credited, id) + (if id in r.s.protocols then r.s.protocols[id].escrow else 0) ==
         At(r.books.deposited, id)
    && Total(r.s.payouts, r.s.payouts.Keys, GrossOf(id)) == At(r.books.credited, id)
  }

  /** What a sum over payout accounts adds up: one protocol's gross, or all fees. */
  datatype Measure = GrossOf(protocol: Id) | AllFees

  function Weight(a: Account, p: Payout, what: Measure): nat {
    match what
    case GrossOf(id) => if a.0 == id then p.gross else 0
    case AllFees => p.fees
  }

  ghost function Total(payouts: map<Account, Payout>, accounts: set<Account>, what: Measure): nat
    requires accounts <= payouts.Keys
  {
    if accounts == {} then 0
    else
      var a :| a in accounts;
      Weight(a, payouts[a], what) + Total(payouts, accounts - {a}, what)
  }

  lemma {:induction false} TotalRemove(payouts: map<Account, Payout>, accounts: set<Account>, what: Measure, a: Account)
    requires accounts <= payouts.Keys && a in accounts
    ensures Total(payouts, accounts, what) == Weight(a, payouts[a], what) + Total(payouts, accounts - {a}, what)
    decreases |accounts|
  {
    var b :| b in accounts &&
      Total(payouts, accounts, what) == Weight(b, payouts[b], what) + Total(payouts, accounts - {b}, what);
    if a != b {
      TotalRemove(payouts, accounts - {b}, what, a);
      TotalRemove(payouts, accounts - {a}, what, b);
      assert accounts - {a} - {b} == accounts - {b} - {a};
    }
  }

  lemma {:induction false} TotalSame(m: map<Account, Payout>, m': map<Account, Payout>, accounts: set<Account>,
                                     what: Measure)
    requires accounts <= m.Keys && accounts <= m'.Keys
    requires forall a :: a in accounts ==> m[a] == m'[a]
    ensures Total(m, accounts, what) == Total(m', accounts, what)
    decreases |accounts|
  {
    if accounts != {} {
      var a :| a in accounts;
      TotalRemove(m, accounts, what, a);
      TotalRemove(m', accounts, what, a);
      TotalSame(m, m', accounts - {a}, what);
    }
  }

  function Weighed(m: map<Account, Payout>, a: Account, what: Measure): nat {
    if a in m then Weight(a, m[a], what) else 0
  }

  /** Writing one payout changes a sum by the change of its own weight. */
  lemma TotalUpdate(m: map<Account, Payout>, a: Account, payout: Payout, what: Measure)
    ensures Total(m[a := payout], m[a := payout].Keys, what) + Weighed(m, a, what) ==
      Total(m, m.Keys, what) + Weight(a, payout, what)
  {
    var m' := m[a := payout];
    TotalRemove(m', m'.Keys, what, a);
    assert m'.Keys - {a} == m.Keys - {a};
    TotalSame(m, m', m.Keys - {a}, what);
    if a in m { TotalRemove(m, m.Keys, what, a); } else { assert m.Keys - {a} == m.Keys; }
  }

  lemma SubmitKeepsAccount(r: Run, args: Args, a: Account)
    requires r.s.feeBps <= BPS && AccountOk(r, a) && args.Submit?
    ensures AccountOk(Step(r, args), a)
  {
  }

  lemma ClaimKeepsAccount(r: Run, args: Args, a: Account)
    requires r.s.feeBps <= BPS && AccountOk(r, a) && args.Claim?
    ensures AccountOk(Step(r, args), a)
  {
  }

  lemma StepKeepsAccount(r: Run, args: Args, a: Account)
    requires r.s.feeBps <= BPS && AccountOk(r, a)
    ensures AccountOk(Step(r, args), a)
  {
    if args.Submit? { SubmitKeepsAccount(r, args, a); } else if args.Claim? { ClaimKeepsAccount(r, args, a); }
  }

  lemma StepKeepsEpoch(r: Run, args: Args, k: EpochKey)
    requires r.s.feeBps <= BPS && EpochAt(r.s, k).paid <= EpochAt(r.s, k).observers
    ensures var e := EpochAt(Step(r, args).s, k); e.paid <= e.observers
  {
  }

  lemma SubmitKeepsBook(r: Run, args: Args, id: Id)
    requires r.s.feeBps <= BPS && BookOk(r, id) && args.Submit?
    ensures BookOk(Step(r, args), id)
  {
    var s', a := Execute(r.s, args).0, (args.protocol, args.pseudonym);
    if s' != r.s { TotalUpdate(r.s.payouts, a, s'.payouts[a], GrossOf(id)); }
  }

  lemma ClaimKeepsBook(r: Run, args: Args, id: Id)
    requires r.s.feeBps <= BPS && BookOk(r, id) && args.Claim?
    ensures BookOk(Step(r, args), id)
  {
    var s', a := Execute(r.s, args).0, args.account;
    if s' != r.s { TotalUpdate(r.s.payouts, a, s'.payouts[a], GrossOf(id)); }
  }

  lemma StepKeepsBook(r: Run, args: Args, id: Id)
    requires r.s.feeBps <= BPS && BookOk(r, id)
    ensures BookOk(Step(r, args), id)
  {
    if args.Submit? { SubmitKeepsBook(r, args, id); } else if args.Claim? { ClaimKeepsBook(r, args, id); }
  }

  lemma StepKeepsFees(s: State, args: Args)
    requires s.feeBps <= BPS && s.feeVault == Total(s.payouts, s.payouts.Keys, AllFees)
    ensures var s' := Execute(s, args).0; s'.feeVault == Total(s'.payouts, s'.payouts.Keys, AllFees)
  {
    var s' := Execute(s, args).0;
    if s'.payouts != s.payouts {
      var a := if args.Submit? then (args.protocol, args.pseudonym) else args.account;
      TotalUpdate(s.payouts, a, s'.payouts[a], AllFees);
    }
  }

  lemma StepKeepsKey(s: State, args: Args, a: Account)
    requires s.feeBps <= BPS && a in s.payouts && s.payouts[a].key.Some?
    ensures var s' := Execute(s, args).0; a in s'.payouts && s'.payouts[a].key == s.payouts[a].key
    ensures args.Claim? && args.account == a && Execute(s, args).1 == Done ==> Some(args.key) == s.payouts[a].key
  {
  }

  // ---------- main results ----------

  lemma {:induction false} RunKeepsAccount(bps: nat, ops: seq<Args>, a: Account)
    requires bps <= BPS
    ensures AccountOk(RunOf(bps, ops), a)
    decreases |ops|
  {
    if ops != [] {
      RunKeepsAccount(bps, ops[..|ops| - 1], a);
      StepKeepsAccount(RunOf(bps, ops[..|ops| - 1]), ops[|ops| - 1], a);
    }
  }

  lemma {:induction false} RunKeepsBook(bps: nat, ops: seq<Args>, id: Id)
    requires bps <= BPS
    ensures BookOk(RunOf(bps, ops), id)
    decreases |ops|
  {
    if ops != [] {
      RunKeepsBook(bps, ops[..|ops| - 1], id);
      StepKeepsBook(RunOf(bps, ops[..|ops| - 1]), ops[|ops| - 1], id);
    }
  }

  /** Over every run: what a payout was credited is fees, what is still available and what was
      withdrawn; its vault covers the available part; its nonce counts its claims. */
  lemma PayoutsBalance(bps: nat, ops: seq<Args>, a: Account)
    requires bps <= BPS && a in RunOf(bps, ops).s.payouts
    ensures var r := RunOf(bps, ops);
      var p := r.s.payouts[a];
      p.gross == p.fees + p.available + p.withdrawn <= U64_MAX && VaultAt(r.s, a) >= p.available &&
      p.nonce == At(r.books.claims, a)
  {
    RunKeepsAccount(bps, ops, a);
  }

  /** Over every run each escrow lost exactly what its protocol's payouts were credited in gross. */
  lemma EscrowIsConserved(bps: nat, ops: seq<Args>, id: Id)
    requires bps <= BPS && id in RunOf(bps, ops).s.protocols
    ensures var r := RunOf(bps, ops);
      r.s.protocols[id].escrow + Total(r.s.payouts, r.s.payouts.Keys, GrossOf(id)) == At(r.books.deposited, id)
  {
    RunKeepsBook(bps, ops, id);
  }

  /** Over every run the fee vault received exactly the fees booked to the payout accounts. */
  lemma {:induction false} FeesAreConserved(bps: nat, ops: seq<Args>)
    requires bps <= BPS
    ensures var s := RunOf(bps, ops).s; s.feeVault == Total(s.payouts, s.payouts.Keys, AllFees)
    decreases |ops|
  {
    if ops != [] {
      FeesAreConserved(bps, ops[..|ops| - 1]);
      StepKeepsFees(RunOf(bps, ops[..|ops| - 1]).s, ops[|ops| - 1]);
    }
  }

  /** No claim overflows in any reachable state: each earlier claim withdrew at least one unit, so the
      nonce, like `withdrawn`, stays under the gross ever credited. */
  lemma ClaimOverflowUnreachable(bps: nat, ops: seq<Args>, args: Args)
    requires bps <= BPS && args.Claim?
    ensures Execute(RunOf(bps, ops).s, args).1 != Overflow
  {
    RunKeepsAccount(bps, ops, args.account);
  }

  /** Once a withdrawal key is bound it never changes, and a later claim pays only with that key. */
  lemma {:induction false} KeyIsBoundForever(bps: nat, ops: seq<Args>, k: nat, a: Account)
    requires bps <= BPS && k <= |ops|
    requires a in RunOf(bps, ops[..k]).s.payouts && RunOf(bps, ops[..k]).s.payouts[a].key.Some?
    ensures a in RunOf(bps, ops).s.payouts
    ensures RunOf(bps, ops).s.payouts[a].key == RunOf(bps, ops[..k]).s.payouts[a].key
    decreases |ops|
  {
    if k == |ops| {
      assert ops[..k] == ops;
    } else {
      var front := ops[..|ops| - 1];
      assert front[..k] == ops[..k];
      KeyIsBoundForever(bps, front, k, a);
      StepKeepsKey(RunOf(bps, front).s, ops[|ops| - 1], a);
    }
  }

  // ---------- the eligibility quote ----------

  /** Slots the quote reports open: limited by the escrow's funds and by the slots not yet paid. */
  function Quote(p: Protocol, e: Epoch): nat {
    var funded := if p.reward > 0 then p.escrow / p.reward else 0;
    var open := if p.slots > e.paid then p.slots - e.paid else 0;
    if funded < open then funded else open
  }

  function QuoteFor(s: State, k: EpochKey): nat
    requires k.protocol in s.protocols
  {
    Quote(s.protocols[k.protocol], EpochAt(s, k))
  }

  lemma QuotePositive(p: Protocol, e: Epoch)
    ensures Quote(p, e) > 0 <==> WouldPay(p, e)
  {
    if p.reward > 0 {
      DivAtLeastOne(p.escrow, p.reward);
    }
  }

  lemma DivAtLeastOne(a: nat, b: nat)
    requires b > 0
    ensures a / b > 0 <==> a >= b
    ensures a >= b ==> (a - b) / b == a / b - 1
  {
    var q := a / b;
    assert q * b <= a < (q + 1) * b;
    if a >= b {
      CancelLess(1, q + 1, b);
      var p := (a - b) / b;
      assert p * b <= a - b < (p + 1) * b;
      CancelLess(p + 1, q + 1, b);
      CancelLess(q, p + 2, b);
    }
  }

  lemma QuoteDrops(p: Protocol, e: Epoch)
    requires WouldPay(p, e)
    ensures Quote(p.(escrow := p.escrow - p.reward), Epoch(e.observers + 1, e.paid + 1)) == Quote(p, e) - 1
  {
    DivAtLeastOne(p.escrow, p.reward);
  }

  predicate Targets(args: Args, k: EpochKey) {
    args.Submit? && EpochKey(args.protocol, args.device, args.epoch) == k
  }

  /** The quoted reward, slots, escrow and paid slots are the same in both states. */
  predicate SameTerms(s: State, s': State, k: EpochKey)
    requires k.protocol in s.protocols
  {
    k.protocol in s'.protocols && EpochAt(s', k).paid == EpochAt(s, k).paid &&
    s'.protocols[k.protocol].(policyVersion := 0) == s.protocols[k.protocol].(policyVersion := 0)
  }

  /** Whatever is not a submission for the quoted device and epoch leaves the quoted terms alone: no
      one else draws on the escrow or adds to it, and the policy stays. */
  ghost predicate Undisturbed(s: State, ops: seq<Args>, k: EpochKey)
    requires s.feeBps <= BPS && k.protocol in s.protocols
    decreases |ops|
  {
    ops == [] ||
    (var s' := Execute(s, ops[0]).0;
     k.protocol in s'.protocols && (Targets(ops[0], k) || SameTerms(s, s', k)) && Undisturbed(s', ops[1..], k))
  }

  /** Submissions for the device and epoch that are accepted, paid or not. */
  function Accepted(s: State, ops: seq<Args>, k: EpochKey): nat
    requires s.feeBps <= BPS
    decreases |ops|
  {
    if ops == [] then 0
    else
      var out := Execute(s, ops[0]);
      (if Targets(ops[0], k) && out.1 in {Paid, Unpaid} then 1 else 0) + Accepted(out.0, ops[1..], k)
  }

  function PaidCount(s: State, ops: seq<Args>, k: EpochKey): nat
    requires s.feeBps <= BPS
    decreases |ops|
  {
    if ops == [] then 0
    else
      var out := Execute(s, ops[0]);
      (if Targets(ops[0], k) && out.1 == Paid then 1 else 0) + PaidCount(out.0, ops[1..], k)
  }

  /** Only a paid submission, a policy change and a deposit, each of the same protocol, can disturb. */
  lemma FewDisturb(s: State, args: Args, k: EpochKey)
    requires s.feeBps <= BPS && k.protocol in s.protocols
    requires Execute(s, args).1 == Paid ==> args.protocol != k.protocol
    requires Execute(s, args).1 == Done && (args.UpdatePolicy? || args.Fund?) ==> args.id != k.protocol
    ensures SameTerms(s, Execute(s, args).0, k)
  {
  }

  lemma SubmissionFollowsQuote(s: State, args: Args, k: EpochKey)
    requires s.feeBps <= BPS && k.protocol in s.protocols && Targets(args, k)
    requires Execute(s, args).1 in {Paid, Unpaid}
    ensures Execute(s, args).1 == Paid <==> QuoteFor(s, k) > 0
    ensures k.protocol in Execute(s, args).0.protocols
    ensures QuoteFor(Execute(s, args).0, k) == if QuoteFor(s, k) > 0 then QuoteFor(s, k) - 1 else 0
  {
    var p, e := s.protocols[k.protocol], EpochAt(s, k);
    QuotePositive(p, e);
    if WouldPay(p, e) { QuoteDrops(p, e); }
  }

  lemma RefusedSubmissionChangesNothing(s: State, args: Args)
    requires s.feeBps <= BPS && args.Submit? && Execute(s, args).1 !in {Paid, Unpaid}
    ensures Execute(s, args).0 == s
  {
  }

  /** The quote is exact: of the next accepted submissions for the device and epoch, exactly
      min(their number, quoted open slots) are paid. */
  lemma {:induction false} QuoteIsExact(s: State, ops: seq<Args>, k: EpochKey)
    requires s.feeBps <= BPS && k.protocol in s.protocols && Undisturbed(s, ops, k)
    ensures PaidCount(s, ops, k) ==
      if Accepted(s, ops, k) < QuoteFor(s, k) then Accepted(s, ops, k) else QuoteFor(s, k)
    decreases |ops|
  {
    if ops != [] {
      if Targets(ops[0], k) {
        if Execute(s, ops[0]).1 in {Paid, Unpaid} {
          SubmissionFollowsQuote(s, ops[0], k);
        } else {
          RefusedSubmissionChangesNothing(s, ops[0]);
        }
      }
      QuoteIsExact(Execute(s, ops[0]).0, ops[1..], k);
    }
  }

  /** In every reachable state paid slots never exceed independent observers, so the quote's
      consistency check never refuses. */
  lemma {:induction false} PaidWithinObservers(bps: nat, ops: seq<Args>, k: EpochKey)
    requires bps <= BPS
    ensures EpochAt(RunOf(bps, ops).s, k).paid <= EpochAt(RunOf(bps, ops).s, k).observers
    decreases |ops|
  {
    if ops != [] {
      PaidWithinObservers(bps, ops[..|ops| - 1], k);
      StepKeepsEpoch(RunOf(bps, ops[..|ops| - 1]), ops[|ops| - 1], k);
    }
  }
}
