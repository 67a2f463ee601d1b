/** What the accounts hold: every balance, counter and policy can be read off the log of instructions
    and their codes, and whether an instruction succeeds depends on that log. */
module LedgerLog {
  import opened Wrappers
  import opened Ledger

  /** An instruction and how it ended. */
  datatype Entry = Entry(args: Args, code: Code)
  type Log = seq<Entry>

  function LogOf(bps: nat, ops: seq<Args>): (log: Log)
    requires bps <= BPS
    ensures |log| == |ops|
  {
    if ops == [] then []
    else
      var front := ops[..|ops| - 1];
      LogOf(bps, front) + [Entry(ops[|ops| - 1], Execute(RunOf(bps, front).s, ops[|ops| - 1]).1)]
  }

  // ---------- the accounts, read off the log ----------

  datatype Terms = Terms(version: nat, reward: nat, slots: nat)

  /** The policy in force, once there is a protocol. */
  function TermsIn(log: Log, id: Id): Option<Terms> {
    if log == [] then None
    else
      var e := log[|log| - 1];
      if e.code == Done && e.args.CreateProtocol? && e.args.id == id then
        Some(Terms(e.args.version, e.args.reward, e.args.slots))
      else if e.code == Done && e.args.UpdatePolicy? && e.args.id == id then
        Some(Terms(e.args.version, e.args.reward, e.args.slots))
      else TermsIn(log[..|log| - 1], id)
  }

  function RewardIn(log: Log, id: Id): nat {
    match TermsIn(log, id) case None => 0 case Some(t) => t.reward
  }

  /** The fee rate in force. */
  function RateIn(bps: nat, log: Log): nat {
    if log == [] then bps
    else if log[|log| - 1].code == Done && log[|log| - 1].args.UpdateFees? then log[|log| - 1].args.bps
    else RateIn(bps, log[..|log| - 1])
  }

  function Floored(gross: nat, rate: nat): nat { gross * rate / 10_000 }

  predicate Pays(e: Entry) { e.code == Paid && e.args.Submit? }
  predicate PaysTo(e: Entry, a: Account) { Pays(e) && (e.args.protocol, e.args.pseudonym) == a }
  predicate SettlesFor(e: Entry, a: Account) { e.code == Done && e.args.Claim? && e.args.account == a }

  /** Whether the account was opened by an accepted submission. */
  function Opened(log: Log, a: Account): bool {
    if log == [] then false
    else
      var e := log[|log| - 1];
      Opened(log[..|log| - 1], a) ||
      (e.args.Submit? && e.code in {Paid, Unpaid} && (e.args.protocol, e.args.pseudonym) == a)
  }

  function GrossIn(log: Log, a: Account): nat {
    if log == [] then 0
    else
      var front, e := log[..|log| - 1], log[|log| - 1];
      GrossIn(front, a) + if PaysTo(e, a) then RewardIn(front, a.0) else 0
  }

  function FeesIn(bps: nat, log: Log, a: Account): nat {
    if log == [] then 0
    else
      var front, e := log[..|log| - 1], log[|log| - 1];
      FeesIn(bps, front, a) + if PaysTo(e, a) then Floored(RewardIn(front, a.0), RateIn(bps, front)) else 0
  }

  /** The claims paid from the account, in order. */
  function ClaimsIn(log: Log, a: Account): (claims: seq<Args>)
    ensures forall i :: 0 <= i < |claims| ==> claims[i].Claim? && claims[i].account == a
  {
    if log == [] then []
    else ClaimsIn(log[..|log| - 1], a) + if SettlesFor(log[|log| - 1], a) then [log[|log| - 1].args] else []
  }

  function WithdrawnIn(log: Log, a: Account): nat {
    if log == [] then 0
    else WithdrawnIn(log[..|log| - 1], a) + if SettlesFor(log[|log| - 1], a) then log[|log| - 1].args.amount else 0
  }

  function DonatedIn(log: Log, a: Account): nat {
    if log == [] then 0
    else
      var e := log[|log| - 1];
      DonatedIn(log[..|log| - 1], a) +
        if e.code == Done && e.args.Donate? && e.args.account == a then e.args.amount else 0
  }

  function FundedIn(log: Log, id: Id): nat {
    if log == [] then 0
    else
      var e := log[|log| - 1];
      FundedIn(log[..|log| - 1], id) + if e.code == Done && e.args.Fund? && e.args.id == id then e.args.amount else 0
  }

  function SpentIn(log: Log, id: Id): nat {
    if log == [] then 0
    else
      var front, e := log[..|log| - 1], log[|log| - 1];
      SpentIn(front, id) + if Pays(e) && e.args.protocol == id then RewardIn(front, id) else 0
  }

  function CollectedIn(bps: nat, log: Log): nat {
    if log == [] then 0
    else
      var front, e := log[..|log| - 1], log[|log| - 1];
      CollectedIn(bps, front) + if Pays(e) then Floored(RewardIn(front, e.args.protocol), RateIn(bps, front)) else 0
  }

  /** Submissions for the device and epoch that were accepted, and how many of them paid. */
  function CountedIn(log: Log, k: EpochKey, paidOnly: bool): nat {
    if log == [] then 0
    else
      var e := log[|log| - 1];
      CountedIn(log[..|log| - 1], k, paidOnly) +
        if Targets(e.args, k) && (e.code == Paid || (!paidOnly && e.code == Unpaid)) then 1 else 0
  }

  // ---------- the accounts agree with the log ----------

  ghost predicate ProtocolAgrees(s: State, log: Log, id: Id) {
    match TermsIn(log, id)
    case None => id !in s.protocols && FundedIn(log, id) == SpentIn(log, id) == 0
    case Some(t) =>
      id in s.protocols && s.protocols[id].policyVersion == t.version && s.protocols[id].reward == t.reward &&
      s.protocols[id].slots == t.slots && s.protocols[id].escrow + SpentIn(log, id) == FundedIn(log, id)
  }

  ghost predicate RateAgrees(bps: nat, s: State, log: Log) {
    s.feeBps == RateIn(bps, log) && s.feeVault == CollectedIn(bps, log)
  }

  ghost predicate EpochAgrees(s: State, log: Log, k: EpochKey) {
    EpochAt(s, k) == Epoch(CountedIn(log, k, false), CountedIn(log, k, true))
  }

  ghost predicate AccountAgrees(bps: nat, s: State, log: Log, a: Account) {
    && (a in s.payouts <==> Opened(log, a)) && (a in s.vaults <==> Opened(log, a))
    && PayoutAt(s, a).gross == GrossIn(log, a) && PayoutAt(s, a).fees == FeesIn(bps, log, a)
    && PayoutAt(s, a).withdrawn == WithdrawnIn(log, a)
    && GrossIn(log, a) == FeesIn(bps, log, a) + PayoutAt(s, a).available + WithdrawnIn(log, a)
    && VaultAt(s, a) == PayoutAt(s, a).available + DonatedIn(log, a)
    && PayoutAt(s, a).nonce == |ClaimsIn(log, a)|
    && PayoutAt(s, a).key == if ClaimsIn(log, a) == [] then None else Some(ClaimsIn(log, a)[0].key)
  }

  lemma OneMore(log: Log, e: Entry)
    ensures (log + [e])[..|log + [e]| - 1] == log
  {
  }

  lemma SubmitProtocolStep(s: State, log: Log, args: Args, id: Id)
    requires s.feeBps <= BPS && ProtocolAgrees(s, log, id) && args.Submit?
    ensures ProtocolAgrees(Execute(s, args).0, log + [Entry(args, Execute(s, args).1)], id)
  {
    OneMore(log, Entry(args, Execute(s, args).1));
  }

  lemma ClaimProtocolStep(s: State, log: Log, args: Args, id: Id)
    requires s.feeBps <= BPS && ProtocolAgrees(s, log, id) && args.Claim?
    ensures ProtocolAgrees(Execute(s, args).0, log + [Entry(args, Execute(s, args).1)], id)
  {
    OneMore(log, Entry(args, Execute(s, args).1));
  }

  lemma AdminProtocolStep(s: State, log: Log, args: Args, id: Id)
    requires s.feeBps <= BPS && ProtocolAgrees(s, log, id) && !args.Submit? && !args.Claim?
    ensures ProtocolAgrees(Execute(s, args).0, log + [Entry(args, Execute(s, args).1)], id)
  {
    OneMore(log, Entry(args, Execute(s, args).1));
  }

  lemma ProtocolStep(s: State, log: Log, args: Args, id: Id)
    requires s.feeBps <= BPS && ProtocolAgrees(s, log, id)
    ensures ProtocolAgrees(Execute(s, args).0, log + [Entry(args, Execute(s, args).1)], id)
  {
    if args.Submit? {
      SubmitProtocolStep(s, log, args, id);
    } else if args.Claim? {
      ClaimProtocolStep(s, log, args, id);
    } else {
      AdminProtocolStep(s, log, args, id);
    }
  }

  lemma RateStep(bps: nat, s: State, log: Log, args: Args)
    requires s.feeBps <= BPS && RateAgrees(bps, s, log)
    requires args.Submit? ==> ProtocolAgrees(s, log, args.protocol)
    ensures RateAgrees(bps, Execute(s, args).0, log + [Entry(args, Execute(s, args).1)])
  {
    OneMore(log, Entry(args, Execute(s, args).1));
  }

  lemma EpochStep(s: State, log: Log, args: Args, k: EpochKey)
    requires s.feeBps <= BPS && EpochAgrees(s, log, k)
    ensures EpochAgrees(Execute(s, args).0, log + [Entry(args, Execute(s, args).1)], k)
  {
    OneMore(log, Entry(args, Execute(s, args).1));
  }

  /** What a submission does to one account. */
  lemma SubmitEffect(s: State, args: Args, a: Account)
    requires s.feeBps <= BPS && args.Submit?
    ensures var out := Execute(s, args);
      var s', payout := out.0, PayoutAt(s, a);
      if a == (args.protocol, args.pseudonym) && out.1 in {Paid, Unpaid} then
        a in s'.payouts && a in s'.vaults && a.0 in s.protocols &&
        var gross := if out.1 == Paid then s.protocols[a.0].reward else 0;
        var fee := Fee(gross, s.feeBps);
        PayoutAt(s', a) == payout.(gross := payout.gross + gross, fees := payout.fees + fee,
                                   available := payout.available + gross - fee) &&
        VaultAt(s', a) == VaultAt(s, a) + gross - fee
      else
        PayoutAt(s', a) == payout && VaultAt(s', a) == VaultAt(s, a) &&
        (a in s'.payouts <==> a in s.payouts) && (a in s'.vaults <==> a in s.vaults)
  {
  }

  lemma SubmitAccountStep(bps: nat, s: State, log: Log, args: Args, a: Account)
    requires s.feeBps <= BPS && AccountAgrees(bps, s, log, a) && args.Submit?
    requires ProtocolAgrees(s, log, a.0) && RateAgrees(bps, s, log)
    ensures AccountAgrees(bps, Execute(s, args).0, log + [Entry(args, Execute(s, args).1)], a)
  {
    OneMore(log, Entry(args, Execute(s, args).1));
    SubmitEffect(s, args, a);
    SubmitLog(bps, log, Entry(args, Execute(s, args).1), a);
  }

  /** What it adds to the log's sums. */
  lemma SubmitLog(bps: nat, log: Log, e: Entry, a: Account)
    requires e.args.Submit?
    ensures var log' := log + [e];
      ClaimsIn(log', a) == ClaimsIn(log, a) && WithdrawnIn(log', a) == WithdrawnIn(log, a) &&
      DonatedIn(log', a) == DonatedIn(log, a) &&
      (PaysTo(e, a) ==>
        GrossIn(log', a) == GrossIn(log, a) + RewardIn(log, a.0) &&
        FeesIn(bps, log', a) == FeesIn(bps, log, a) + Floored(RewardIn(log, a.0), RateIn(bps, log))) &&
      (!PaysTo(e, a) ==> GrossIn(log', a) == GrossIn(log, a) && FeesIn(bps, log', a) == FeesIn(bps, log, a))
  {
    OneMore(log, e);
  }

  lemma ClaimAccountStep(bps: nat, s: State, log: Log, args: Args, a: Account)
    requires s.feeBps <= BPS && AccountAgrees(bps, s, log, a) && args.Claim?
    ensures AccountAgrees(bps, Execute(s, args).0, log + [Entry(args, Execute(s, args).1)], a)
  {
    OneMore(log, Entry(args, Execute(s, args).1));
  }

  lemma AdminAccountStep(bps: nat, s: State, log: Log, args: Args, a: Account)
    requires s.feeBps <= BPS && AccountAgrees(bps, s, log, a) && !args.Claim? && !args.Submit?
    ensures AccountAgrees(bps, Execute(s, args).0, log + [Entry(args, Execute(s, args).1)], a)
  {
    OneMore(log, Entry(args, Execute(s, args).1));
  }

  // ---------- main results, over every run ----------

  /** The policies, escrows and rates are what the accepted instructions made them. */
  lemma {:induction false} ProtocolsAreTheLog(bps: nat, ops: seq<Args>, id: Id)
    requires bps <= BPS
    ensures ProtocolAgrees(RunOf(bps, ops).s, LogOf(bps, ops), id)
    decreases |ops|
  {
    if ops != [] {
      var front := ops[..|ops| - 1];
      ProtocolsAreTheLog(bps, front, id);
      ProtocolStep(RunOf(bps, front).s, LogOf(bps, front), ops[|ops| - 1], id);
    }
  }

  lemma {:induction false} RatesAreTheLog(bps: nat, ops: seq<Args>)
    requires bps <= BPS
    ensures RateAgrees(bps, RunOf(bps, ops).s, LogOf(bps, ops))
    decreases |ops|
  {
    if ops != [] {
      var front, last := ops[..|ops| - 1], ops[|ops| - 1];
      RatesAreTheLog(bps, front);
      if last.Submit? { ProtocolsAreTheLog(bps, front, last.protocol); }
      RateStep(bps, RunOf(bps, front).s, LogOf(bps, front), last);
    }
  }

  /** An epoch counts its accepted submissions, and as paid those that were. */
  lemma {:induction false} EpochsAreTheLog(bps: nat, ops: seq<Args>, k: EpochKey)
    requires bps <= BPS
    ensures EpochAgrees(RunOf(bps, ops).s, LogOf(bps, ops), k)
    decreases |ops|
  {
    if ops != [] {
      var front := ops[..|ops| - 1];
      EpochsAreTheLog(bps, front, k);
      EpochStep(RunOf(bps, front).s, LogOf(bps, front), ops[|ops| - 1], k);
    }
  }

  /** A payout account and its vault hold what the account's paid submissions, paid claims and donations
      add up to, at the reward and rate in force for each. */
  lemma {:induction false} AccountsAreTheLog(bps: nat, ops: seq<Args>, a: Account)
    requires bps <= BPS
    ensures AccountAgrees(bps, RunOf(bps, ops).s, LogOf(bps, ops), a)
    decreases |ops|
  {
    if ops != [] {
      var front, last := ops[..|ops| - 1], ops[|ops| - 1];
      var s, log := RunOf(bps, front).s, LogOf(bps, front);
      AccountsAreTheLog(bps, front, a);
      ProtocolsAreTheLog(bps, front, a.0);
      RatesAreTheLog(bps, front);
      if last.Submit? { SubmitAccountStep(bps, s, log, last, a); }
      else if last.Claim? { ClaimAccountStep(bps, s, log, last, a); }
      else { AdminAccountStep(bps, s, log, last, a); }
    }
  }

  // ---------- claims ----------

  /** The claims paid from an account name the nonces 0, 1, 2, ... in order and one key, the first one's,
      so no claim is paid twice. */
  lemma {:induction false} ClaimsAreNumbered(bps: nat, ops: seq<Args>, a: Account, i: nat)
    requires bps <= BPS && i < |ClaimsIn(LogOf(bps, ops), a)|
    ensures var claims := ClaimsIn(LogOf(bps, ops), a); claims[i].nonce == i && claims[i].key == claims[0].key
    decreases |ops|
  {
    var front, last := ops[..|ops| - 1], ops[|ops| - 1];
    var log := LogOf(bps, front);
    OneMore(log, Entry(last, Execute(RunOf(bps, front).s, last).1));
    AccountsAreTheLog(bps, front, a);
    if i < |ClaimsIn(log, a)| { ClaimsAreNumbered(bps, front, a, i); }
  }

  /** The paid claims of an account withdrew what it has withdrawn. */
  function Amounts(claims: seq<Args>): nat
    requires forall i :: 0 <= i < |claims| ==> claims[i].Claim?
  {
    if claims == [] then 0 else Amounts(claims[..|claims| - 1]) + claims[|claims| - 1].amount
  }

  lemma {:induction false} WithdrawnIsClaimed(log: Log, a: Account)
    ensures WithdrawnIn(log, a) == Amounts(ClaimsIn(log, a))
  {
    if log != [] {
      WithdrawnIsClaimed(log[..|log| - 1], a);
      var claims := ClaimsIn(log[..|log| - 1], a);
      if SettlesFor(log[|log| - 1], a) {
        assert (claims + [log[|log| - 1].args])[..|claims|] == claims;
      } else {
        assert claims + [] == claims;
      }
    }
  }

  /** What is left of an account's net rewards. */
  function LeftIn(bps: nat, log: Log, a: Account): int {
    GrossIn(log, a) - FeesIn(bps, log, a) - WithdrawnIn(log, a)
  }

  /** The checks of a claim, in order, on the log. */
  function ClaimChecks(bps: nat, log: Log, c: Args): seq<(bool, Code)>
    requires c.Claim?
  {
    var paid := ClaimsIn(log, c.account);
    [(Opened(log, c.account), Missing),
     (1 <= c.amount <= LeftIn(bps, log, c.account), InvalidPayout),
     (c.nonce == |paid|, InvalidPayout),
     (c.now <= c.expires <= c.now + 300, InvalidPayout),
     (paid == [] ==> c.authorized, InvalidAuthorization),
     (paid != [] ==> c.key == paid[0].key, Unauthorized)]
  }

  /** In every reachable state a claim answers with the first of these checks that fails, and is paid if
      and only if none does: never twice, never more than is left, only within 300 s before its expiry,
      first with the verifier's authorization and then with the same key. */
  lemma ClaimIsExact(bps: nat, ops: seq<Args>, c: Args)
    requires bps <= BPS && c.Claim?
    ensures Execute(RunOf(bps, ops).s, c).1 == FirstFailing(ClaimChecks(bps, LogOf(bps, ops), c), Done)
  {
    var s, log := RunOf(bps, ops).s, LogOf(bps, ops);
    AccountsAreTheLog(bps, ops, c.account);
    ClaimOverflowUnreachable(bps, ops, c);
    ClaimDecided(bps, s, log, c);
    FirstOfSix(ClaimChecks(bps, log, c), Execute(s, c).1);
  }

  lemma FirstOfSix(checks: seq<(bool, Code)>, code: Code)
    requires |checks| == 6 && checks[0].1 == Missing && checks[4].1 == InvalidAuthorization
    requires checks[1].1 == checks[2].1 == checks[3].1 == InvalidPayout && checks[5].1 == Unauthorized
    requires code == if !checks[0].0 then Missing
      else if !checks[1].0 || !checks[2].0 || !checks[3].0 then InvalidPayout
      else if !checks[4].0 then InvalidAuthorization
      else if !checks[5].0 then Unauthorized
      else Done
    ensures code == FirstFailing(checks, Done)
  {
    FirstFailingIs(checks, Done);
  }

  lemma ClaimDecided(bps: nat, s: State, log: Log, c: Args)
    requires s.feeBps <= BPS && c.Claim? && AccountAgrees(bps, s, log, c.account) && Execute(s, c).1 != Overflow
    ensures var checks := ClaimChecks(bps, log, c);
      Execute(s, c).1 == if !checks[0].0 then Missing
        else if !checks[1].0 || !checks[2].0 || !checks[3].0 then InvalidPayout
        else if !checks[4].0 then InvalidAuthorization
        else if !checks[5].0 then Unauthorized
        else Done
  {
  }

  lemma {:induction false} LoggedAt(bps: nat, ops: seq<Args>, i: nat)
    requires bps <= BPS && i < |ops|
    ensures LogOf(bps, ops)[i] == Entry(ops[i], Execute(RunOf(bps, ops[..i]).s, ops[i]).1)
    decreases |ops|
  {
    var front := ops[..|ops| - 1];
    if i < |front| {
      LoggedAt(bps, front, i);
      assert front[..i] == ops[..i];
    }
  }

  /** Whatever claim a run paid: it was for at least one unit and at most what was then left, named the number
      of the claims paid before it, came no later than its expiry and at most 300 s before it, and was
      authorized if it was the first. */
  lemma PaidClaims(bps: nat, ops: seq<Args>, i: nat)
    requires bps <= BPS && i < |ops| && LogOf(bps, ops)[i].code == Done && ops[i].Claim?
    ensures var c, before := ops[i], LogOf(bps, ops[..i]);
      var paid := ClaimsIn(before, c.account);
      1 <= c.amount <= LeftIn(bps, before, c.account) && c.nonce == |paid| && c.now <= c.expires <= c.now + 300 &&
      (paid == [] ==> c.authorized) && (paid != [] ==> c.key == paid[0].key)
  {
    LoggedAt(bps, ops, i);
    ClaimIsExact(bps, ops[..i], ops[i]);
    AllPass(bps, LogOf(bps, ops[..i]), ops[i]);
  }

  lemma AllPass(bps: nat, log: Log, c: Args)
    requires c.Claim? && FirstFailing(ClaimChecks(bps, log, c), Done) == Done
    ensures var paid := ClaimsIn(log, c.account);
      1 <= c.amount <= LeftIn(bps, log, c.account) && c.nonce == |paid| && c.now <= c.expires <= c.now + 300 &&
      (paid == [] ==> c.authorized) && (paid != [] ==> c.key == paid[0].key)
  {
    FirstOfTen(ClaimChecks(bps, log, c), Done);
  }

  // ---------- submissions ----------

  /** The checks of a submission before it counts, in order, on the log. */
  function SubmitChecks(log: Log, args: Args): seq<(bool, Code)>
    requires args.Submit?
  {
    [(TermsIn(log, args.protocol).Some?, Missing),
     (args.authorized, Refused),
     (CountedIn(log, EpochKey(args.protocol, args.device, args.epoch), false) < 65_535, CountOverflow)]
  }

  /** The reward of the protocol is due: there is one, a slot is left, and the deposits not yet spent cover
      it. */
  predicate RewardDue(log: Log, args: Args)
    requires args.Submit?
  {
    match TermsIn(log, args.protocol)
    case None => false
    case Some(t) =>
      t.reward > 0 && CountedIn(log, EpochKey(args.protocol, args.device, args.epoch), true) < t.slots &&
      FundedIn(log, args.protocol) >= SpentIn(log, args.protocol) + t.reward
  }

  /** What can still stop a payment: a balance that would leave 64 bits, or 255 paid slots. */
  function PayChecks(s: State, args: Args): seq<(bool, Code)>
    requires args.Submit? && args.protocol in s.protocols && s.feeBps <= 10_000
  {
    var a, k := (args.protocol, args.pseudonym), EpochKey(args.protocol, args.device, args.epoch);
    var reward := s.protocols[args.protocol].reward;
    FeeBound(reward, s.feeBps);
    var fee := Floored(reward, s.feeBps);
    [(VaultAt(s, a) + (reward - fee) <= 0xffff_ffff_ffff_ffff, TokenError),
     (s.feeVault + fee <= 0xffff_ffff_ffff_ffff, TokenError),
     (PayoutAt(s, a).gross + reward <= 0xffff_ffff_ffff_ffff, Overflow),
     (EpochAt(s, k).paid < 255, Overflow)]
  }

  /** In every reachable state a submission answers with the first of its checks that fails; if none does it
      is counted without pay when no reward is due, and otherwise paid unless one of the last checks fails. */
  lemma SubmitIsExact(bps: nat, ops: seq<Args>, args: Args)
    requires bps <= BPS && args.Submit?
    ensures var s, log := RunOf(bps, ops).s, LogOf(bps, ops);
      var code, first := Execute(s, args).1, FirstFailing(SubmitChecks(log, args), Paid);
      if first != Paid then code == first
      else if !RewardDue(log, args) then code == Unpaid
      else args.protocol in s.protocols && code == FirstFailing(PayChecks(s, args), Paid)
  {
    var s, log := RunOf(bps, ops).s, LogOf(bps, ops);
    ProtocolsAreTheLog(bps, ops, args.protocol);
    EpochsAreTheLog(bps, ops, EpochKey(args.protocol, args.device, args.epoch));
    RunKeepsAccount(bps, ops, (args.protocol, args.pseudonym));
    FirstFailingIs(SubmitChecks(log, args), Paid);
    SubmitDecided(s, log, args);
    if Counts(SubmitChecks(log, args)) && RewardDue(log, args) { PayDecided(s, args); }
  }

  predicate Counts(checks: seq<(bool, Code)>) {
    forall i :: 0 <= i < |checks| ==> checks[i].0
  }

  lemma SubmitDecided(s: State, log: Log, args: Args)
    requires s.feeBps <= BPS && args.Submit? && ProtocolAgrees(s, log, args.protocol)
    requires EpochAgrees(s, log, EpochKey(args.protocol, args.device, args.epoch))
    ensures var checks, code := SubmitChecks(log, args), Execute(s, args).1;
      if !checks[0].0 then code == Missing
      else if !checks[1].0 then code == Refused
      else if !checks[2].0 then code == CountOverflow
      else if !RewardDue(log, args) then code == Unpaid
      else Payable(s, args)
  {
  }

  /** The reward is to be paid, if nothing overflows. */
  ghost predicate Payable(s: State, args: Args)
    requires s.feeBps <= BPS && args.Submit?
  {
    var k := EpochKey(args.protocol, args.device, args.epoch);
    args.protocol in s.protocols && WouldPay(s.protocols[args.protocol], EpochAt(s, k)) &&
    Execute(s, args) == SubmitPaid(s, args.protocol, k, (args.protocol, args.pseudonym))
  }

  lemma PayDecided(s: State, args: Args)
    requires s.feeBps <= BPS && args.Submit? && Payable(s, args)
    requires var p := PayoutAt(s, (args.protocol, args.pseudonym)); p.gross == p.fees + p.available + p.withdrawn
    ensures Execute(s, args).1 == FirstFailing(PayChecks(s, args), Paid)
  {
    var reward := s.protocols[args.protocol].reward;
    assert Floored(reward, s.feeBps) == Fee(reward, s.feeBps);
    FirstOfTen(PayChecks(s, args), Paid);
  }

  // ---------- the other instructions ----------

  /** The checks of an instruction that is neither a submission nor a claim. */
  function AdminChecks(s: State, args: Args): seq<(bool, Code)>
    requires !args.Submit? && !args.Claim?
  {
    match args
    case UpdateFees(rate) => [(rate <= 10_000, InvalidPolicy)]
    case UpdatePolicy(id, version, reward, slots) =>
      [(id in s.protocols, Missing), (id in s.protocols ==> version > s.protocols[id].policyVersion, InvalidPolicy),
       (slots == 0 || reward >= 1, InvalidPolicy)]
    case CreateProtocol(id, version, reward, slots) =>
      [(id !in s.protocols, InvalidPolicy), (slots == 0 || reward >= 1, InvalidPolicy)]
    case Fund(id, amount) =>
      [(id in s.protocols, Missing),
       (id in s.protocols ==> s.protocols[id].escrow + amount <= 0xffff_ffff_ffff_ffff, TokenError)]
    case Donate(a, amount) =>
      [(a in s.vaults, Missing), (VaultAt(s, a) + amount <= 0xffff_ffff_ffff_ffff, TokenError)]
  }

  /** It answers with the first of its checks that fails, and is done if none does. */
  lemma AdminIsExact(s: State, args: Args)
    requires s.feeBps <= BPS && !args.Submit? && !args.Claim?
    ensures Execute(s, args).1 == FirstFailing(AdminChecks(s, args), Done)
  {
    FirstOfTen(AdminChecks(s, args), Done);
  }

  /** What is refused changes nothing, whichever instruction it is. */
  lemma RefusedChangesNothing(s: State, args: Args)
    requires s.feeBps <= BPS && Execute(s, args).1 !in {Paid, Unpaid, Done}
    ensures Execute(s, args).0 == s
  {
  }

  // ---------- policies ----------

  /** From `early` to `late` the policy stays, starts or is replaced by a later version, and slots that are
      paid have a reward. */
  ghost predicate Advances(early: Option<Terms>, late: Option<Terms>) {
    (early == late || (late.Some? && (late.value.slots > 0 ==> late.value.reward > 0))) &&
    (early.Some? ==> late.Some? && (early == late || early.value.version < late.value.version))
  }

  lemma TermsStep(s: State, log: Log, args: Args, id: Id)
    requires s.feeBps <= BPS && ProtocolAgrees(s, log, id)
    ensures Advances(TermsIn(log, id), TermsIn(log + [Entry(args, Execute(s, args).1)], id))
  {
    OneMore(log, Entry(args, Execute(s, args).1));
  }

  /** Policy versions only grow. */
  lemma {:induction false} VersionsGrow(bps: nat, ops: seq<Args>, k: nat, id: Id)
    requires bps <= BPS && k <= |ops|
    ensures Advances(TermsIn(LogOf(bps, ops[..k]), id), TermsIn(LogOf(bps, ops), id))
    decreases |ops|
  {
    if k < |ops| {
      var front := ops[..|ops| - 1];
      assert front[..k] == ops[..k];
      VersionsGrow(bps, front, k, id);
      ProtocolsAreTheLog(bps, front, id);
      TermsStep(RunOf(bps, front).s, LogOf(bps, front), ops[|ops| - 1], id);
    } else {
      assert ops[..k] == ops;
    }
  }
}
