# Pathnod: a verified model

Pathnod lets phones observe Bluetooth devices, prove what they saw, and get paid for it on a chain.
Its guarantees rest on code that keeps state over time: a nonce cache in firmware, Merkle trees that
are never stored in full, workers that survive crashes and an unreliable network, counters reserved
ahead of use, and token ledgers. This project models that code and proves what it promises over
every run. `dafny verify dfyconfig.toml` checks all of it.

Each module writes an operation once as a function of its state, proves over whole runs of such
steps what the system promises, and then gives the imperative form of the source - a class with the
same fields, an in-place loop, a cursor - and proves it equal to that function. Where a module has a
companion, that one says what the function means without using it: from the log of what happened,
from the bytes themselves, or by the list of checks in their order.

| module | models | main results |
|---|---|---|
| `Guard`, `GuardHistory` | the firmware's challenge guard | no minute holds more than 30 attempts, so 300 slots suffice: a live nonce is never evicted; the bounded guard answers like one that remembers every attempt |
| `Device` | counter reservation and the session | counters of signed responses strictly increase over any boots, crashes and half-finished writes; when a challenge is answered, and what a refusal costs |
| `Merkle`, `ObservationTree` | the device epoch on chain | the O(depth) frontier, stale levels included, gives the root of the full padded tree; that root determines the transcripts |
| `Enrollment` | the observer tree off chain | sparse nodes, stored roots, served paths and the dense recomputation all agree |
| `Relay` | the durable relay | persist before send, at most one transaction lands, verdicts are final and have exactly the stated causes; the worker cut at every await makes the straight-line pass |
| `Roots`, `Publisher` | root ring and root publisher | roots are published in row order, each once, and the last four are active; what one tick comes to |
| `Policy`, `PolicyLog` | the interleaved validation service | counters, nullifiers, revocation and ownership hold for every interleaving with stale reads; every table is what the log of commits says, and each call's answer is that of its first failing check on that log |
| `Ledger`, `LedgerLog` | rewards, payouts, claims and the quote | conservation to the unit, bound keys, an exact eligibility quote; every account is what the log of instructions says, claims are numbered 0, 1, 2, ..., and each code is that of the first failing check |
| `UnionFind`, `Log2`, `Entropy`, `Intake`, `Score`, `ScoreMeaning` | the confidence engine | groups are connected components; fixed-point log within two units of the last place; facets in scale, each a mean of weakest records; order of inputs irrelevant; a report covers exactly the transcripts on chain |
| `Cbor`, `CborMeaning`, `Transcript`, `TranscriptLayout`, `Base58`, `ByteCodec` | the codecs | transcripts and base58 have one encoding per value, and decoding inverts it; for CBOR that holds exactly up to byte order marks; which bytes are accepted, and where every field stands |
| `Classifier`, `RuleMeaning` | the advertisement classifier | merging verdicts equals the verdict on all matched rules; narrowing is invisible; when a rule matches, and which complaint a registry gets |

Hashes are functions given to the model; SHA-256, Poseidon and the proof system are not part of it,
and injectivity is a stated premise of the lemmas that need it. SQLite tables are maps and
sequences changed by atomic transactions, the chain is a height with the transactions that landed,
and clocks, randomness, signatures and RPC answers are parameters.

Three properties one might expect turned out not to hold as the code stands; the model keeps the code
and states exactly when they do.

- A transaction signed by the relay and lost to a crash (or to the size check) before its row is written
  does not count towards the eight generations. A run signs at most eight more than it loses
  (`Relay.SignedCount`), some run with any given number of losses signs that many
  (`Relay.SignedCountIsTight`), so eight bounds the signings exactly of runs without a loss
  (`Relay.EightOnlyWithoutLosses`). At most eight are ever written or sent.
- The CBOR text decoder drops a leading byte order mark, so a value can have several encodings: both
  `61 61` and `64 EF BB BF 61` decode to "a" (`Cbor.TwoEncodings`). One of them is always shortest, and
  it is the only one exactly when no text of the value has room for a mark within the size limit
  (`Cbor.OneShortestEncoding`, `Cbor.OneEncodingPerValue`).
- Which error `computeConfidence` raises can depend on the order of its inputs: a negative metric and a
  transcript of another protocol are each complained about when they come first (`Intake.OrderDecides`).
  The errors raised over all orders are those of the single inputs, and the repeated nullifier if two
  sound inputs share one (`Intake.RaisedExactly`), so the error is the same in every order exactly when
  there are not two different ones among these (`Intake.ProblemIsOrderFree`,
  `Score.OutcomeIsOrderFree`). Whether there is a report, and the report itself, never depend on the
  order (`Score.OrderIrrelevant`).

## Model

| member | source | states |
|---|---|---|
| `Guard.GuardTable.NonceSeen` | firmware/esp32/main/guard.c:4-16 | one in-place pass expires the entries up to the first live match, refreshes that match's use time and reports whether there was one |
| `Guard.GuardTable.NonceInsert` | firmware/esp32/main/guard.c:18-33 | exactly one slot is overwritten: the first unused or expired one, else the least recently used |
| `Guard.GuardTable.Admit` | firmware/esp32/main/guard.c:35-56 | verdict, window, cache and connection limit after a challenge are those of `Accept`: clock check, connection limit, window compaction, global limit, record, replay, insert, in that order |
| `Guard.TenWindowsBack` | firmware/esp32/main/guard.h:6-10 | when a further attempt is admitted, the attempt 300 back lies at least ten windows, one lifetime, in the past |
| `Guard.SomeSlotIsFree` | firmware/esp32/main/guard.c:18-33 | counting: an admitted nonce always finds an unused or expired slot among the 300 |
| `Guard.RateLimitHolds` | firmware/esp32/main/guard.c:35-56 | over any clock readings and reconnects of one boot, no half-open 60 s window holds more than 30 recorded attempts |
| `Guard.LiveNonceNeverEvicted` | firmware/esp32/main/guard.c:18-33 | in every reachable state the slot an accepted nonce overwrites holds no live nonce |
| `Guard.ReplayIsExact` | firmware/esp32/main/guard.c:50-55 | a recorded attempt is answered "replay" if and only if the same nonce was answered OK less than 600 s before |
| `Guard.NonceAnsweredOncePerLifetime` | firmware/esp32/main/guard.c:35-56 | two OK answers to one nonce are at least 600 s apart |
| `GuardHistory.GuardRemembersEnough` | firmware/esp32/main/guard.c:35-56 | over any challenges, clock readings and reconnects of one boot, the guard answers exactly as one that remembers every attempt, and records the same attempts |
| `GuardHistory.RateIsExact` | firmware/esp32/main/guard.c:41-47 | a reading that is not refused is rate-limited if and only if an attempt recorded on this connection is less than 2 s old, or 30 attempts of the boot are less than 60 s old |
| `GuardHistory.ConnectionsAreSpaced` | firmware/esp32/main/guard.c:41-42 | two recorded attempts without a reconnect between them are at least 2 s apart |
| `GuardHistory.ClockIsExact` | firmware/esp32/main/guard.c:38-40 | a reading is refused if and only if it is negative or behind the last one that was not refused |
| `Guard.TouchKeepsAdmission` | firmware/esp32/main/guard.c:4-16 | a replay moves the use time of the entry it hits and nothing else: expiry keeps counting from admission |
| `Guard.VictimIsColdest` | firmware/esp32/main/guard.c:18-33 | only when every slot is live is one overwritten that is, and then one used no later than any other |
| `Device.Identity.Init` | firmware/esp32/main/identity.c:56-114 | after initialization the identity is ready exactly when every step and the stored counter allow it, and then starts one above the stored ceiling |
| `Device.Identity.AllocateCounter` | firmware/esp32/main/identity.c:31-49 | flash, memory and counter after one allocation, for every point at which the reservation's writes can fail |
| `Device.AllocateCovers` | firmware/esp32/main/identity.c:31-49 | a handed-out counter never exceeds the ceiling that is durable by then, and the durable ceiling never falls |
| `Device.LoadKeepsCounters` | firmware/esp32/main/identity.c:15-29 | loading from whatever flash holds keeps all issued counters below the next one |
| `Device.Identity.Respond` | firmware/esp32/main/identity.c:125-157 | the response and the state after it, including the session lost to a failed allocation and the counter spent on a failed signature |
| `Device.CountersNeverRepeat` | firmware/esp32/main/identity.c:31-49 | over all boots, re-initializations, crashes and ambiguous commits, counters of signed responses strictly increase and stay within 32 bits and under the durable ceiling |
| `Device.IssuedAreDurable` | firmware/esp32/main/identity.c:31-49 | every counter ever issued, the first included, is positive, within 32 bits and covered by the durable ceiling |
| `Device.CeilingNeverFalls` | firmware/esp32/main/identity.c:31-49 | the durable ceiling is monotone over every run |
| `Device.Session.Connect` | firmware/esp32/main/session.c:9-14 | a connection starts with a cleared session and a fresh attempt limit |
| `Device.Session.Reset` | firmware/esp32/main/session.c:4-8 | everything in the session is cleared |
| `Device.Session.HandleChallenge` | firmware/esp32/main/session.c:21-35 | session, guard, limit and identity after a challenge write, for every refusal and success |
| `Device.ValidSessionAnswersLatest` | firmware/esp32/main/session.c:21-35 | in every reachable state a valid session holds the newest issued counter, signed over the latest challenge of this connection, whose nonce the guard accepted |
| `Device.AnswerIsExact` | firmware/esp32/main/session.c:21-35 | in every reachable state a challenge is signed if and only if connection, length, guard, identity, counter and signature allow it; then over this challenge, under the next counter, and the session shows it |
| `Device.RefusalsAreCheap` | firmware/esp32/main/session.c:21-35 | what each kind of refusal leaves unchanged, clears or spends |
| `Device.ErrorsAreExact` | firmware/esp32/main/session.c:21-35 | which error each kind of refusal gives |
| `Device.BlockNeedsNoFlash` | firmware/esp32/main/identity.c:31-49 | inside a reserved block a counter costs no write, whatever state the flash is in |
| `Device.BlockIsWhole` | firmware/esp32/main/identity.c:31-49 | a committed reservation covers 64 counters, or as many as 32 bits have left |
| `Device.ClosedUntilInit` | firmware/esp32/main/identity.c:125-157 | once the identity is closed nothing is signed until it is initialized again |
| `Device.RebootRecovers` | firmware/esp32/main/identity.c:15-29 | after any run an initialization without a read error is ready while a counter is left, one above the durable ceiling |
| `Device.DamageIsRefused` | firmware/esp32/main/identity.c:15-29 | storage whose marker is wrong, or stands without a counter, is never brought up |
| `Merkle.AppendElsewhere` | packages/verifier/src/observer-enrollment.ts:359-372 | appending a leaf changes at each level only the node above it |
| `Merkle.EmptyBeyond` | packages/verifier/src/observer-enrollment.ts:352-357 | every subtree right of the last leaf is the default empty node |
| `Merkle.PathFolds` | packages/verifier/src/observer-enrollment.ts:389-398 | a leaf folded with its siblings in its index's directions gives the node above it, so at full depth the root |
| `Merkle.Descend` | packages/verifier/src/confidence.ts:228-244 | with an injective node hash, equal nodes have equal leaves below them |
| `Merkle.ThreeLeaves` | packages/verifier/src/observer-enrollment.ts:389-398 | leaves go from left to right, and a missing one counts as empty |
| `ObservationTree.DeviceEpoch.AppendObservation` | programs/pathnod/src/observation.rs:192-215 | the in-place loop over the frontier gives the account `Appended` describes: new count, root and frontier, and the confidence cleared; a full count changes nothing |
| `ObservationTree.ClimbIsTree` | packages/solana/src/observation.ts:195-218 | from a frontier whose set bits hold the complete subtrees (other levels hold anything), the climb computes the padded tree's node and leaves such a frontier for the longer list |
| `ObservationTree.AppendKeepsTree` | programs/pathnod/src/observation.rs:192-215 | one append keeps that frontier invariant and gives the root of the padded tree over all leaves |
| `ObservationTree.RootIsPaddedTree` | programs/pathnod/src/observation.rs:192-215 | over every run the stored root is the root of the full padded tree over the transcripts in order, and the count is their number |
| `ObservationTree.SixteenLevelsFit` | packages/solana/src/observation.ts:195-218 | sixteen levels have room for the 65535 transcripts a count admits |
| `ObservationTree.RootDeterminesTranscripts` | packages/verifier/src/confidence.ts:228-244 | with injective, domain-separated hashes two runs with equal roots hold the same transcripts in the same order |
| `ObservationTree.DeviceEpoch.Publish` | programs/pathnod/src/confidence.rs:55-107 | a publication that gets in names the account's root, count and previous commitment and becomes its nonzero commitment; which refusal is given: stale exactly when the policy matches but the account has moved on, unauthorized exactly when only the signature is missing; a refusal changes nothing |
| `ObservationTree.PublicationIsExact` | programs/pathnod/src/confidence.rs:55-107 | the outcome is that of the first failing check: policy version, nonzero commitment, a positive and current count, current root, previous commitment, a clock not negative, evaluated in the epoch or later and at most 600 s ahead, signature |
| `ObservationTree.ConfidenceIsCurrent` | programs/pathnod/src/confidence.rs:55-107 | over every run a nonzero commitment was published for the account's current root and observer count |
| `ObservationTree.PublicationsAreLinked` | programs/pathnod/src/confidence.rs:55-107 | over every run the accepted publications form one chain: each names the one before it as previous, or the zero commitment after a new observation |
| `ObservationTree.AppendTree` | packages/solana/src/observation.ts:195-218 | the SDK's append on a copied frontier computes the same climb, and refuses a wrong depth or a full count |
| `ObservationTree.Refold` | packages/verifier/src/confidence.ts:228-244 | the loop over a transcript order gives the root of the account that got just these transcripts |
| `ObservationTree.RefoldDeterminesTranscripts` | packages/verifier/src/confidence.ts:228-244 | an order that refolds to the root on chain is the order in which the chain got the transcripts |
| `Enrollment.Service.constructor` | packages/verifier/src/observer-enrollment.ts:352-357 | an empty service is consistent: no node stored, and the empty root at revision 0 |
| `Enrollment.Service.UpdateTree` | packages/verifier/src/observer-enrollment.ts:359-380 | after the climb every sparse node, stored or default, is the subtree root over the longer leaf list, and one root row is added with revision and leaf count equal to the number of leaves |
| `Enrollment.Service.PathOf` | packages/verifier/src/observer-enrollment.ts:389-404 | the served siblings and directions fold the leaf to the current root, at the current revision |
| `Enrollment.Service.Enroll` | packages/verifier/src/observer-enrollment.ts:198-248 | succeeds exactly when attested and the key is new with an unused commitment and room, or known with the same commitment; adds a row only in the first case; a failure changes nothing; success serves a path that folds to the root; all agreement with the dense tree is kept |
| `Enrollment.ConflictMeans` | packages/verifier/src/observer-enrollment.ts:187-248 | with unique keys and commitments, "already enrolled" means a row with one of the two but not the other |
| `Enrollment.Service.TreePath` | packages/verifier/src/observer-enrollment.ts:257-270 | at any later revision an enrolled key gets a path from its own leaf to the current root, and no one else does |
| `Enrollment.Service.PublicationBatch` | packages/verifier/src/observer-enrollment.ts:274-285 | the "root and leaf count disagree" error is unreachable; a snapshot is given exactly for a nonempty tree newer than asked, with its current root and the earliest time of a root after the revision asked about |
| `Enrollment.DenseRoot` | packages/verifier/scripts/dev37-demo.ts:82-91 | level-by-level recomputation gives the same padded-tree root |
| `Relay.Relayer.Process` | packages/verifier/src/observation-relay.ts:119-175 | the whole job row - status, bytes, signature, generations, attempts, retry time, last error - after every answer or exception at every await is that of `Resume` |
| `Relay.PersistedBeforeSent` | packages/verifier/src/observation-relay.ts:119-175 | over all runs with crashes, whatever was sent or landed had been written to the row, and at most eight ever are |
| `Relay.AtMostOneLands` | packages/verifier/src/solana-observation-relay.ts:102-115 | with answers truthful once the finalized height passed expiry, a superseded transaction can never land, and at most one of a job's own ever does |
| `Relay.VerdictsAreFinal` | packages/verifier/src/observation-relay.ts:119-175 | after "failed" none of the job's transactions ever executes, "confirmed" means the matching commitment is on chain, and neither verdict changes |
| `Relay.InvalidNeverSigned` | packages/verifier/src/observation-relay.ts:119-175 | a job whose payload does not check out never has a transaction |
| `Relay.WhatConfirms` | packages/verifier/src/observation-relay.ts:119-175 | over every run: an existing account confirms a waiting job and clears its signature, a landed transaction confirms it under its own |
| `Relay.OnlyThatConfirms` | packages/verifier/src/observation-relay.ts:119-175 | and nothing else confirms a job |
| `Relay.WhatFails` | packages/verifier/src/observation-relay.ts:119-175 | over every run a job fails exactly for its stated cause: invalid authorization, an errored inspection, no eligibility without live bytes, or eight generations; in the last two cases the latest existence answer was no |
| `Relay.WorkerMakesThePass` | packages/verifier/src/observation-relay.ts:119-175 | driven through all its awaits, the worker leaves the row the straight-line code leaves, for every list of answers and exceptions |
| `Relay.BackoffIsCapped` | packages/verifier/src/observation-relay.ts:112-116 | the delay after an exception doubles from a second on and is capped at 3600 s |
| `Relay.SignedCount` | packages/verifier/src/observation-relay.ts:152-160 | over every run the signings are the generations plus the losses among its events - crashes and exceptions after signing, prepare's own included - so at most eight more than the losses |
| `Relay.SignedWithoutBound` | packages/verifier/src/observation-relay.ts:152-160 | for every n a run that signs and loses n transactions and sends none |
| `Relay.SignedCountIsTight` | packages/verifier/src/observation-relay.ts:152-160 | for every n a run with n losses that signs exactly 8 + n |
| `Relay.EightOnlyWithoutLosses` | packages/verifier/src/observation-relay.ts:152-160 | all runs with n losses sign at most eight if and only if n is 0 |
| `Roots.EnrollmentAuthority.PublishRoot` | programs/pathnod/src/registry.rs:239-260 | the ring is written at the running counter's slot exactly when root, leaf count and counter are in range |
| `Roots.EnrollmentAuthority.IsActive` | programs/pathnod/src/observation.rs:245-258 | the on-chain check accepts exactly the roots the SDK lists |
| `Roots.ActiveAreTheLastFour` | packages/solana/src/index.ts:209-212 | after any n publications the active roots are the last min(4, n), newest first |
| `Publisher.PublisherIsOrderly` | packages/verifier/src/root-publication.ts:142-207 | over every run only the newest row can be unconfirmed, revisions strictly increase, and every confirmed root is on chain |
| `Publisher.PublishedInRowOrder` | packages/verifier/src/root-publication.ts:142-207 | over every run, with crashes, stale answers, re-preparing and bytes that land late or again, the published roots are those of the rows in row order, each at its first occurrence; at most the newest row is missing, and no confirmed one |
| `Publisher.EachRootOnce` | packages/verifier/src/root-publication.ts:142-207 | so no root is published twice, and none without a row |
| `Publisher.ActiveRootsOfRun` | packages/solana/src/index.ts:209-212 | after any publisher run whose batches offer fresh roots, the active roots are those of the last min(4, n) of the n published rows, newest first |
| `Publisher.Publisher.Publish` | packages/verifier/src/root-publication.ts:142-207 | one tick in straight-line code: the rows after it are those of `Pass`, for every answer or exception |
| `Publisher.WorkerMakesThePass` | packages/verifier/src/root-publication.ts:142-207 | the worker that can be cut at every await, driven through them, does what the straight-line code does |
| `Publisher.TickMeans` | packages/verifier/src/root-publication.ts:172-205 | a due row is confirmed exactly when its root is found before or after sending; bytes are replaced exactly when there are none or they have expired; without an error it is looked at again after 2 s, with one after 1, 2, 4, 8, 16, then 30 s |
| `Publisher.TickStarts` | packages/verifier/src/root-publication.ts:159-171 | with nothing pending, a batch becomes a row exactly when forced, when it brings enough leaves beyond the newest row, or when it has waited long enough |
| `Policy.Store.CommitObservation` | packages/verifier/src/observation-policy.ts:220-316 | the final transaction, with rollback at each of its checks, gives the tables and answer of `Commit` |
| `Policy.Store.CommitAssertion` | packages/verifier/src/app-attest-gate.ts:172-182 | the counter moves exactly when the row is still the one that was read (for claims: and still usable) |
| `Policy.AssertionCountersIncrease` | packages/verifier/src/observation-policy.ts:148-175 | in every interleaving each key's assertion counter strictly increases across observations, claims and enrollment assertions |
| `Policy.DeviceCountersIncrease` | packages/verifier/src/observation-policy.ts:187-210 | in every interleaving a device's three counters increase within and across its committed observations |
| `Policy.RevokedKeysCommitNothing` | packages/verifier/src/observation-policy.ts:187-210 | every observation or claim committed with a key that is revoked was committed before the revocation |
| `Policy.NullifiersAndJobs` | packages/verifier/src/observation-policy.ts:220-316 | nullifiers are unique, the capacity holds, and with the relay on validations and relay jobs correspond one to one |
| `Policy.HistoryIsKept` | packages/verifier/src/observation-policy.ts:220-316 | no later event removes or changes a validation, a pseudonym's owner or an earlier commit |
| `Policy.ClaimsByOwnersOnly` | packages/verifier/src/observation-policy.ts:148-175 | every committed claim used the key that owns the pseudonym |
| `PolicyLog.TablesAreTheLog` | packages/verifier/src/observation-policy.ts:281-316 | in every interleaving each table row is what the log of commits says: validations hold the digest and nullifier committed under their hash, device counters the last third counter, owners the first key, jobs their transcript, keys their last assertion |
| `PolicyLog.CommittedOnce` | packages/verifier/src/observation-policy.ts:285-290 | no transcript and no nullifier is committed twice |
| `PolicyLog.CommittedRow` | packages/verifier/src/observation-policy.ts:300 | each committed observation has its row, with its own digest and nullifier |
| `PolicyLog.RepeatedEnvelope` | packages/verifier/src/observation-policy.ts:198-203 | receiving a committed transcript again changes nothing: validated for the same envelope, a used nullifier for any other |
| `PolicyLog.CommitIsExact` | packages/verifier/src/observation-policy.ts:281-316 | in every reachable state the final transaction of a new transcript answers with the first failing one of nine checks on the log, and commits if none fails |
| `PolicyLog.ReceiveGoesOn` | packages/verifier/src/observation-policy.ts:228-264 | in every reachable state a receive goes on to its proof exactly when transcript, counters, key and assertion allow it, and writes nothing yet |
| `PolicyLog.ClaimStarts` | packages/verifier/src/observation-policy.ts:148-175 | a claim starts exactly for the owning key, usable and with a new assertion |
| `PolicyLog.ClaimCommits` | packages/verifier/src/observation-policy.ts:148-175 | and is committed exactly when the key is still usable and its row unchanged |
| `PolicyLog.AssertionCommits` | packages/verifier/src/app-attest-gate.ts:172-182 | an enrollment assertion is committed exactly when the counter it read still stands |
| `PolicyLog.KeysAreEvents` | packages/verifier/src/observation-policy.ts:184-190 | a key is known, enrolled and revoked exactly after the events that make it so |
| `Ledger.Fee` | programs/pathnod/src/payments.rs:98-103 | the fee is the largest whole number within the rate, and never exceeds the gross |
| `Ledger.Program.SubmitObservation` | programs/pathnod/src/observation.rs:296-356 | count, account creation, payment decision, transfers and credits, with every failure undoing all of it |
| `Ledger.Program.Transfer` | programs/pathnod/src/observation.rs:315-335 | net and fee leave the escrow and reach the payout vault and the fee vault, or nothing moves |
| `Ledger.Program.ClaimPayout` | programs/pathnod/src/payments.rs:160-224 | accounts and outcome after a claim, for each of its checks |
| `Ledger.PayoutsBalance` | programs/pathnod/src/payments.rs:160-224 | over every run gross = fees + available + withdrawn, the vault covers available, and the nonce counts the claims |
| `Ledger.EscrowIsConserved` | programs/pathnod/src/observation.rs:296-356 | over every run each escrow plus all gross credited under its protocol equals what was deposited, to the unit |
| `Ledger.FeesAreConserved` | programs/pathnod/src/observation.rs:296-356 | over every run the fee vault received exactly the fees booked to all payout accounts |
| `Ledger.ClaimOverflowUnreachable` | programs/pathnod/src/payments.rs:160-224 | no claim in any reachable state fails for overflow, of `withdrawn` or of the nonce |
| `Ledger.KeyIsBoundForever` | programs/pathnod/src/payments.rs:160-224 | a bound withdrawal key never changes |
| `Ledger.StepKeepsKey` | programs/pathnod/src/payments.rs:160-224 | and a later claim that pays names that key |
| `Ledger.QuoteIsExact` | packages/verifier/src/device-eligibility.ts:125-136 | while nothing else changes the quoted policy, escrow or paid slots, of the next k accepted submissions for the device and epoch exactly min(k, quoted slots) are paid; unpaid, refused and unrelated instructions may interleave |
| `Ledger.FewDisturb` | programs/pathnod/src/observation.rs:296-356 | only a paid submission, a policy change or a deposit of the same protocol can change the quoted terms |
| `Ledger.PaidWithinObservers` | packages/verifier/src/device-eligibility.ts:125-126 | in every reachable state paid slots do not exceed observers, so the quote's consistency check never refuses |
| `LedgerLog.ProtocolsAreTheLog` | programs/pathnod/src/payments.rs:120-160 | over every run a protocol has the terms last set, and its escrow is what was funded less what was spent |
| `LedgerLog.RatesAreTheLog` | programs/pathnod/src/payments.rs:117-121 | the rate is the one last set, and the fee vault holds the fees of all payments at the rates of their time |
| `LedgerLog.EpochsAreTheLog` | programs/pathnod/src/observation.rs:296-356 | observers and paid slots of an epoch count its accepted and its paid submissions |
| `LedgerLog.AccountsAreTheLog` | programs/pathnod/src/observation.rs:296-356 | a payout account exists from its first submission on; gross, fees, available, withdrawn, vault, nonce and key are what the payments and claims of the log make them |
| `LedgerLog.ClaimsAreNumbered` | programs/pathnod/src/payments.rs:160-224 | over every run the claims paid from one account carry the nonces 0, 1, 2, ... in order and name one key, so no claim is paid twice |
| `LedgerLog.PaidClaims` | programs/pathnod/src/payments.rs:160-224 | every claim a run paid was for at least one unit and at most what was then left, no later than its expiry and at most 300 s before it, and authorized if it was the account's first |
| `LedgerLog.WithdrawnIsClaimed` | programs/pathnod/src/payments.rs:160-224 | what was withdrawn is the sum of the claims paid |
| `LedgerLog.ClaimIsExact` | programs/pathnod/src/payments.rs:160-224 | in every reachable state a claim answers with the first failing one of its checks on the log, and is paid if none fails |
| `LedgerLog.SubmitIsExact` | programs/pathnod/src/observation.rs:296-356 | in every reachable state a submission is refused by its first failing check, counted without pay when no reward is due, and otherwise paid unless a balance would leave its width |
| `LedgerLog.AdminIsExact` | programs/pathnod/src/payments.rs:117-160 | fee, policy, protocol and deposit instructions answer with their first failing check |
| `LedgerLog.RefusedChangesNothing` | programs/pathnod/src/payments.rs:160-224 | whatever is refused changes nothing |
| `LedgerLog.VersionsGrow` | programs/pathnod/src/payments.rs:123-145 | a policy is only replaced by a later version, and paid slots always have a reward |
| `UnionFind.Forest.Find` | packages/verifier/src/confidence.ts:256-262 | path compression returns the representative, changes no representative and never creates a cycle (ranks grow along parents) |
| `UnionFind.Forest.Union` | packages/verifier/src/confidence.ts:282 | joins exactly the two classes |
| `UnionFind.JoinNames` | packages/verifier/src/confidence.ts:282 | representatives that name the components of a graph name those of the graph with one more edge after a join |
| `UnionFind.Group` | packages/verifier/src/confidence.ts:268-283 | after the double loop two pseudonyms share a root exactly when a chain of pairs with more than 80 % slot overlap connects them |
| `UnionFind.GroupTargets` | packages/verifier/src/confidence.ts:284-288 | target records are collected, each once and in order, under the root of their pseudonym |
| `UnionFind.GroupCount` | packages/verifier/src/confidence.ts:284-291 | the number of groups is the number of connected components meeting the target epoch |
| `UnionFind.SimilarIsFourFifths` | packages/verifier/src/confidence.ts:268-282 | two pseudonyms are joined exactly when more than four fifths of either slot set is common |
| `UnionFind.JoinKeepsFirst` | packages/verifier/src/confidence.ts:282 | a join keeps the root of the first |
| `Log2.Compute` | packages/verifier/src/confidence.ts:105-119 | the squaring loop keeps the mantissa in [2^48, 2^49) and returns `Log` |
| `Log2.LogNeverTooLarge` | packages/verifier/src/confidence.ts:105-119 | 2^result <= value^(2^24), at any number of fractional bits |
| `Log2.LogNeverTooSmall` | packages/verifier/src/confidence.ts:105-119 | value^(2^24) < 2^(result + 2), with the error of every truncation accounted for |
| `Log2.LogOfPow2` | packages/verifier/src/confidence.ts:105-119 | exact on powers of two |
| `Log2.LogMono` | packages/verifier/src/confidence.ts:105-119 | monotone in the value |
| `Log2.LogOfDouble` | packages/verifier/src/confidence.ts:105-119 | doubling adds exactly one |
| `Entropy.Compute` | packages/verifier/src/confidence.ts:120-134 | the counted, summed and clamped score is a function of the multiset of labels |
| `Entropy.NeverNegative` | packages/verifier/src/confidence.ts:120-134 | the entropy before clamping is never negative, despite both roundings |
| `Entropy.AllEqualScoresZero` | packages/verifier/src/confidence.ts:120-134 | equal labels score exactly 0 |
| `Entropy.RawNearlyExact` | packages/verifier/src/confidence.ts:120-134 | over n labels, n times the entropy before scaling is at most 3n - 1 units above and at most 2n units below the exact value, all roundings included |
| `Entropy.OnlyCountsMatter` | packages/verifier/src/confidence.ts:120-134 | renaming and reordering the labels changes nothing: only how often each occurs counts |
| `Entropy.EvenLabelsScore` | packages/verifier/src/confidence.ts:120-134 | 2^j equally frequent labels score 5000 j, in full from four on |
| `Intake.Admit` | packages/verifier/src/confidence.ts:169-214 | the intake loop stops at the first input that is at fault by itself, with the error of its first failing check, or that repeats a nullifier |
| `Intake.Check` | packages/verifier/src/confidence.ts:171-202 | risk metric, transcript encoding, transcript, scope and time, evidence encoding and evidence binding are checked in this order, each with its own error |
| `Intake.ProblemMeans` | packages/verifier/src/confidence.ts:169-214 | the intake succeeds exactly when no input is at fault and no two share a nullifier, in any order |
| `Intake.RaisedExactly` | packages/verifier/src/confidence.ts:169-214 | an error is raised in some order of the inputs if and only if some input has that fault, or it is the repeated nullifier and two inputs without a fault share one |
| `Intake.ProblemIsOrderFree` | packages/verifier/src/confidence.ts:169-214 | the outcome of the intake is the same in every order if and only if no two different errors can be raised |
| `Intake.FaultFirst` | packages/verifier/src/confidence.ts:171-202 | for every input at fault, an order in which its error is raised |
| `Intake.ClashFirst` | packages/verifier/src/confidence.ts:203-206 | for every shared nullifier, an order in which the repeated nullifier is raised |
| `Intake.OrderDecides` | packages/verifier/src/confidence.ts:171-192 | two concrete inputs without a common nullifier that raise different errors in their two orders |
| `Intake.FaultIsFirstCheck` | packages/verifier/src/confidence.ts:171-202 | an input is at fault for the first check it fails in a list of ten, the epoch being the one its time lies in |
| `Intake.ProblemIsTheFirst` | packages/verifier/src/confidence.ts:169-214 | the error raised is that of the first input that is not taken |
| `Score.SortedUnique` | packages/verifier/src/confidence.ts:215 | records whose hashes tell them apart have one sorted order |
| `Score.GroupRecords` | packages/verifier/src/confidence.ts:284-291 | collecting the target records in a map under their roots and sorting its entries gives, per root in increasing order, exactly the records of that class |
| `Score.ComputeConfidence` | packages/verifier/src/confidence.ts:143-462 | the whole computation - intake, sorting, refolding the tree, union-find, grouping and entropy loops - gives the specified report or the specified error |
| `Score.ReportInScale` | packages/verifier/src/confidence.ts:292-436 | every facet and the score of every report lie in 0..10000 |
| `Score.VerifiedNeedsEightGroups` | packages/verifier/src/confidence.ts:326-331 | a report's group count is the number of connected components, and it is VERIFIED exactly when that is at least 8 and the hardware facet at least 8000 |
| `Score.OrderIrrelevant` | packages/verifier/src/confidence.ts:169-215 | permuting the inputs never turns a report into an error or into another report, and changes the error only when two different intake errors can be raised |
| `Score.OutcomeIsOrderFree` | packages/verifier/src/confidence.ts:143-215 | the outcome is the same in every order if and only if the scope is refused or no two different intake errors can be raised |
| `Score.ReportOrderIsChainOrder` | packages/verifier/src/confidence.ts:228-244 | for the root on chain, a report's transcript order is the order in which the chain got the transcripts |
| `Score.ReportCoversOrder` | packages/verifier/src/confidence.ts:216-227 | the target records of a report are exactly the transcripts of its order, as many as it has |
| `ScoreMeaning.LeastIsWeakest` | packages/verifier/src/confidence.ts:292-298 | a group counts with the value one of its records has and none falls below |
| `ScoreMeaning.FacetsAreWeakestMeans` | packages/verifier/src/confidence.ts:292-325 | the hardware, freshness and service facets of every report are the floored means over its groups of their weakest records' values |
| `ScoreMeaning.WorseNeverHelps` | packages/verifier/src/confidence.ts:292-325 | with the grouping unchanged, worse records never raise a facet, and a group's share is bounded by every one of its records |
| `ScoreMeaning.HardwareValue` | packages/verifier/src/confidence.ts:292-308 | what one record is worth in hardware: its class, divided by one more than a third of the reenrollments |
| `ScoreMeaning.MoreReenrollmentsWorse` | packages/verifier/src/confidence.ts:299-304 | more reenrollments are never worth more |
| `ScoreMeaning.FreshnessValue` | packages/verifier/src/confidence.ts:309-325 | what a record of a given age is worth in freshness |
| `ScoreMeaning.OlderIsWorse` | packages/verifier/src/confidence.ts:309-325 | an older record is never worth more |
| `ScoreMeaning.AccuracyValue` | packages/verifier/src/confidence.ts:349-356 | ten off the scale for each meter, nothing from 1000 m on |
| `ScoreMeaning.ServiceValue` | packages/verifier/src/confidence.ts:394-419 | full for matching wifi evidence, 2500 for any other, nothing without |
| `ScoreMeaning.WindowIsThirtyDays` | packages/verifier/src/confidence.ts:245-249 | the window holds every occurrence from the thirty days up to the evaluation, and no other |
| `ScoreMeaning.TargetIsTheEpoch` | packages/verifier/src/confidence.ts:216-227 | the target holds every occurrence of the device and epoch, and no other |
| `ScoreMeaning.GroupsAreConnected` | packages/verifier/src/confidence.ts:284-291 | two target records share a group exactly when a chain of similar pseudonyms connects theirs |
| `ScoreMeaning.SlotsAreSeen` | packages/verifier/src/confidence.ts:262-267 | similarity is judged on the device epochs a pseudonym observed in the window |
| `ScoreMeaning.MarkMeans` | packages/verifier/src/confidence.ts:332-359 | a group has a place exactly when all its records name it with some accuracy, and the quality of its least accurate record |
| `ScoreMeaning.BestIsBest` | packages/verifier/src/confidence.ts:360-363 | the agreed place has the most votes |
| `ScoreMeaning.SpatialWhenAgreed` | packages/verifier/src/confidence.ts:360-369 | the spatial facet of groups that all stand at one place, for the claimed place, another or none, and its cap below three groups |
| `ScoreMeaning.LocatedCounts` | packages/verifier/src/confidence.ts:449-452 | the located groups are counted |
| `ScoreMeaning.BehaviorIsMean` | packages/verifier/src/confidence.ts:370-393 | the behavior facet is the floored mean over the groups of the variety of what their connected pseudonyms did in the window |
| `ScoreMeaning.VarietyIsMean` | packages/verifier/src/confidence.ts:372-392 | the variety is the floored mean of the entropies of devices, hours and places |
| `ScoreMeaning.VarietyEnds` | packages/verifier/src/confidence.ts:370-393 | one device, hour and place add nothing |
| `ScoreMeaning.HourMeans` | packages/verifier/src/confidence.ts:376-383 | hours count from midnight to 23 |
| `ScoreMeaning.PlacesCount` | packages/verifier/src/confidence.ts:384-391 | each record with a place counts once under it |
| `ScoreMeaning.WitnessMeans` | packages/verifier/src/confidence.ts:326-331 | two thirds of 1000 for each group, floored, in full from fifteen on |
| `ScoreMeaning.ScoreShares` | packages/verifier/src/confidence.ts:428-433 | each facet moves the score by its own share, and the shares add up |
| `ScoreMeaning.ScoreFollows` | packages/verifier/src/confidence.ts:428-433 | no facet can fall and the score rise |
| `ScoreMeaning.ReportMeans` | packages/verifier/src/confidence.ts:434-462 | a report commits to the sorted inputs and states its coverage: groups with a place, records in the window, and whether every target record has its risk metric |
| `ScoreMeaning.ReportIsExact` | packages/verifier/src/confidence.ts:216-254 | beyond the intake there is a report exactly when the target is the order, the order refolds to the root and at most 512 pseudonyms are involved, and otherwise the error of the first of these that fails |
| `ScoreMeaning.ScopeComesFirst` | packages/verifier/src/confidence.ts:143-170 | a bad scope is refused before any input is looked at, and an intake error before anything is computed |
| `Cbor.DecodeCborPrefix` | packages/verifier/src/app-attest-cbor.ts:18-115 | the cursor-driven decoder computes `DecodePrefix` |
| `Cbor.Decoder.ReadArgument` | packages/verifier/src/app-attest-cbor.ts:34-59 | a length or value is read only in its shortest form and within the safe integer range |
| `Cbor.Decoder.ReadPairs` | packages/verifier/src/app-attest-cbor.ts:89-99 | map entries are read in order with integer or text keys, none twice |
| `Cbor.AcceptedIsCanonical` | packages/verifier/src/app-attest-cbor.ts:18-115 | whatever is accepted is the one preferred encoding of a supported value, byte for byte; re-encoding the returned value gives it back exactly when no text starts with a byte order mark |
| `Cbor.DecodeInvertsEncode` | packages/verifier/src/app-attest-cbor.ts:107-111 | every supported value to depth 12 and 1 MiB decodes to itself, exactly when free of byte order marks |
| `Cbor.OneShortestEncoding` | packages/verifier/src/app-attest-cbor.ts:107-111 | all inputs accepted for a value are one shortest encoding - its preferred serialization if no text begins with a mark - and longer ones with at least one more mark |
| `Cbor.OneEncodingPerValue` | packages/verifier/src/app-attest-cbor.ts:107-111 | a value has exactly one accepted input if and only if none of its texts has room for a mark within 1 MiB |
| `Cbor.TwoEncodings` | packages/verifier/src/app-attest-cbor.ts:76-82 | two different inputs that decode to the text "a" |
| `Cbor.TailChangesNothing` | packages/verifier/src/app-attest-cbor.ts:113-115 | bytes after the value never change a prefix decode |
| `CborMeaning.EncodingIsPreferred` | packages/verifier/src/app-attest-cbor.ts:34-105 | accepted bytes are the initial bytes of RFC 8949 for the value, the shortest that hold its count, then its contents in order |
| `CborMeaning.TextIsUtf8` | packages/verifier/src/app-attest-cbor.ts:76-82 | a text is taken if and only if its bytes are the UTF-8 of some scalar values |
| `CborMeaning.MarkIsFEFF` | packages/verifier/src/app-attest-cbor.ts:76-82 | the mark that is dropped is U+FEFF, once |
| `CborMeaning.SupportedMeans` | packages/verifier/src/app-attest-cbor.ts:61-105 | supported values are those of at most twelve levels with safe integers, well-formed texts and keys that are integers or texts and read differently |
| `CborMeaning.AcceptedIsLegal` | packages/verifier/src/app-attest-cbor.ts:18-111 | only encodings of such values of at most 1 MiB are accepted |
| `CborMeaning.LegalIsAccepted` | packages/verifier/src/app-attest-cbor.ts:18-111 | and every one of them is |
| `Transcript.DecodeTranscript` | packages/verifier/src/observation-transcript.ts:104-135 | reading field by field with a cursor, each check where its field is read, computes `Decode` |
| `Transcript.Reader.Fields` | packages/verifier/src/observation-transcript.ts:108-117 | consecutive reads cut the next bytes into fields of the widths asked for, or fail when the data is too short |
| `Transcript.DecodeInvertsEncode` | packages/verifier/src/observation-transcript.ts:81-102 | every valid transcript encodes to 591 + n bytes and decodes to itself |
| `Transcript.AcceptedIsCanonical` | packages/verifier/src/observation-transcript.ts:104-135 | every accepted input is valid, of length 591 + n, and is the encoding of what it decodes to |
| `Transcript.IntakeBytesAreReencoded` | packages/verifier/src/observation-policy.ts:265 | for committed observations the bytes hashed at intake are the bytes the confidence engine hashes again |
| `TranscriptLayout.LayoutIsFixed` | packages/verifier/src/observation-transcript.ts:81-135 | every field of an accepted transcript stands whole at its fixed offset, numbers in little-endian order, signal strengths as signed bytes |
| `TranscriptLayout.AcceptedIsGrammar` | packages/verifier/src/observation-transcript.ts:54-135 | a byte string is accepted if and only if its length is in range and its bytes follow a grammar stated on the bytes alone |
| `ByteCodec.LittleDigit` | packages/verifier/src/observation-transcript.ts:112-116 | byte i of a number counts 256^i |
| `Base58.MultiplyAdd` | firmware/esp32/main/base58.c:13-46 | the byte-wise carry loop computes value * 58 + d, the final carry being the overflow |
| `Base58.ReadDigits` | firmware/esp32/main/base58.c:13-46 | the scan reads the base-58 number and the leading ones, or shows that no 32 bytes have this text |
| `Base58.Decode32` | firmware/esp32/main/base58.c:13-46 | succeeds with `out` exactly when the text is the encoding of those 32 bytes; a bad-character answer means there is one |
| `Base58.EncodedLength` | firmware/esp32/main/base58.c:13-46 | 32 bytes never need more than 44 characters, so the length bound rejects no valid text |
| `Base58.SignatureBase58` | packages/verifier/src/solana-observation-relay.ts:14-20 | the division loop and the leading ones give `Encode` |
| `Classifier.Registry.constructor` | apps/ios/Sources/PathnodDensityCore/DensityModels.swift:226-283 | the first fault in the order of rules and checks is reported, and without one the rules are sorted and the prefix lengths are the longest declared per company |
| `Classifier.FaultlessIsAccepted` | apps/ios/Sources/PathnodDensityCore/DensityModels.swift:226-283 | there is no fault exactly when every rule is sound and no two share an identifier or their criteria |
| `Classifier.Registry.Narrow` | apps/ios/Sources/PathnodDensityCore/DensityModels.swift:316-329 | a result exactly for at least two bytes naming a company some rule declares, with the first min(longest declared prefix, length) payload bytes; every rule matches it as it matches the whole field |
| `Classifier.NarrowingIsInvisible` | apps/ios/Sources/PathnodDensityCore/DensityModels.swift:175-187 | no rule matches differently on narrowed manufacturer data |
| `Classifier.ClassifyDescribesMatches` | apps/ios/Sources/PathnodDensityCore/AdvertisementClassifier.swift:109-134 | one classification is the verdict on the set of matched rules |
| `Classifier.MergeDescribesUnion` | apps/ios/Sources/PathnodDensityCore/AdvertisementClassifier.swift:71-94 | merging the verdicts on two sets of rules gives the verdict on their union |
| `Classifier.VerdictIsUnique` | apps/ios/Sources/PathnodDensityCore/AdvertisementClassifier.swift:71-94 | a set of rules has at most one verdict |
| `Classifier.MergingIsAssociative` | apps/ios/Sources/PathnodDensityCore/AdvertisementClassifier.swift:71-94 | merging verdicts is associative |
| `Classifier.MergingCommutes` | apps/ios/Sources/PathnodDensityCore/AdvertisementClassifier.swift:71-94 | and commutative and idempotent |
| `Classifier.RegistryIsSorted` | apps/ios/Sources/PathnodDensityCore/DensityModels.swift:276-278 | an accepted registry holds its rules by descending priority and ascending identifier, identifiers distinct |
| `Classifier.MergeIsVerdictOfUnion` | apps/ios/Sources/PathnodDensityCore/AdvertisementClassifier.swift:71-134 | over one accepted registry, any tree of merges over any sightings gives the verdict on all rules they matched |
| `Classifier.GroupingIrrelevant` | apps/ios/Sources/PathnodDensityCore/AdvertisementClassifier.swift:71-134 | over one accepted registry, sightings that matched the same rules give the same verdict, in any grouping or order |
| `RuleMeaning.MatchMeans` | apps/ios/Sources/PathnodDensityCore/DensityModels.swift:98-188 | a rule matches exactly when one of its services is advertised and the field begins with its company, low byte first, and its whole prefix, for whichever of the two it names |
| `RuleMeaning.LongestIsDeclared` | apps/ios/Sources/PathnodDensityCore/DensityModels.swift:316-329 | what is kept of a payload is as long as a prefix declared for its company, and as the longest |
| `RuleMeaning.WinnerMeans` | apps/ios/Sources/PathnodDensityCore/AdvertisementClassifier.swift:109-134 | a rule wins when every other has a lower priority, or the same one and category and a lower confidence or else a later identifier |
| `RuleMeaning.FaultIsFirstCheck` | apps/ios/Sources/PathnodDensityCore/DensityModels.swift:226-283 | a rule is complained about for the first check it fails, and only after these for another rule's criteria |
| `RuleMeaning.DuplicateNamesBoth` | apps/ios/Sources/PathnodDensityCore/DensityModels.swift:226-283 | the complaint about equal criteria names both rules, the smaller identifier first |
| `RuleMeaning.RegistryComplainsFirst` | apps/ios/Sources/PathnodDensityCore/DensityModels.swift:226-283 | the registry's complaint is the one about its first faulty rule |

## Left out

- Relay, Policy and Publisher: the workers are modelled from await to await as steps on values, and any await may be cut short by a crash or an error; HTTP, key management and the SQL text are not modelled.
- Policy.Store.CommitObservation: signature, timing, signal, proof and attestation checks before the final transaction only decide whether a call is dropped; registry tables are a set of enrolled keys and a set of revoked ones.
- Enrollment.Service.Enroll: challenges and the event log are not modelled, the attestation result is a parameter, and the depth is one too (the service uses 20).
- ObservationTree.DeviceEpoch.AppendObservation: the bit test on the count is written as the parity of the shifted count.
- Guard.GuardTable.Admit: readings are unbounded integers; stored times lie between 0 and the last reading, so the subtractions of the C code cannot overflow.
- Base58.Decode32: a null text pointer and a null output pointer are not modelled.
- Log2.Compute: the number of fractional bits is a parameter (the engine uses 24), and or-ing in a bit that is still clear is written as an addition.
- Ledger.Program.SubmitObservation: account constraints, the proof and the observation commitment are a single flag; withdrawal of the fee vault by the treasury is not modelled.
- Ledger.FeesAreConserved: holds of what the program pays in; transfers by the treasury are outside the model.
- Publisher.ActiveRootsOfRun: assumes that the publisher is the only one to publish and offers each root once, and that its roots and leaf counts are in the ring's range.
- Publisher.Publisher.Publish: signature, slot and error columns are not modelled, nor is the periodic second look at the confirmed root, which changes no row; time stands still during a tick.
- Score.ComputeConfidence: transcript decoding, hex, base64, geohash syntax and evidence parsing reach the model as fields of an input, and the digest of the sorted inputs as the inputs themselves.
- Intake.Admit: what makes a transcript decode, an encoding strict or a scope sound are flags, and the scope's own messages are one error; values that are not of their declared type are not modelled.
- Score.OrderIrrelevant and Score.ReportCoversOrder: assume that equal transcript hashes mean equal nullifiers.
- Classifier.Registry.constructor: identifiers are ranks, and white space in names, versions and source references is reduced to flags; the lookup table by identifier is not modelled.
- Cbor.Decoder.ReadPairs: the returned map is its sequence of entries.
- Transcript.DecodeTranscript: floating point and strings do not occur; byte fields are sequences, numbers unbounded with their encoded ranges checked.
- Cryptography, proof verification, RPC and account decoding, command-line tools, radio and user interface code, and the DER reader: external, or easy members.
