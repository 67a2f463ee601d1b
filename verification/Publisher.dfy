/** The publisher of observer roots: it drives one pending publication at a time over an ambiguous
    network, in batches, and re-prepares what expired. */
module Publisher {
  import opened Powers
  import opened Roots
  import opened Wrappers

  const RETRY_MS: int := 2_000
  const RETRY_BASE_MS: nat := 1_000
  const MAX_BACKOFF_MS: nat := 30_000

  datatype Tx = Tx(root: Root, expiry: nat)
  datatype Row = Row(revision: nat, root: Root, leafCount: nat, confirmed: bool, tx: Option<Tx>, attempts: nat,
                     retryAt: int)
  datatype Pc = Idle | Inspecting | Expiring | Preparing | Sending | Reinspecting

  /** What the enrollment service offers beyond a revision. */
  datatype Batch = Batch(revision: nat, root: Root, leafCount: nat, oldestPendingAt: int)
  datatype Config = Config(batchSize: nat, maxDelayMs: int)

  // ---------- the worker from await to await ----------

  /** Answers of the transport, or that a call threw. Tick: what is due, if anything. */
  datatype Answer =
    | Tick(batch: Option<Batch>)
    | Inspected(found: bool)
    | Expired(yes: bool)
    | Prepared(expiry: nat)
    | Sent
    | Threw

  datatype Worker = Worker(rows: seq<Row>, pc: Pc)

  predicate Answers(w: Worker, a: Answer) {
    match w.pc
    case Idle => a.Tick?
    case Inspecting => w.rows != [] && (a.Inspected? || a.Threw?)
    case Expiring => w.rows != [] && (a.Expired? || a.Threw?)
    case Preparing => w.rows != [] && (a.Prepared? || a.Threw?)
    case Sending => w.rows != [] && (a.Sent? || a.Threw?)
    case Reinspecting => w.rows != [] && (a.Inspected? || a.Threw?)
  }

  predicate Pending(rows: seq<Row>) { exists i :: 0 <= i < |rows| && !rows[i].confirmed }

  function NewRow(b: Batch): Row { Row(b.revision, b.root, b.leafCount, false, None, 0, 0) }

  function LatestConfirmed(rows: seq<Row>): nat {
    if rows == [] then 0
    else
      var rest := LatestConfirmed(rows[..|rows| - 1]);
      if rows[|rows| - 1].confirmed && rows[|rows| - 1].revision > rest then rows[|rows| - 1].revision else rest
  }

  function Last(rows: seq<Row>): Row
    requires rows != []
  { rows[|rows| - 1] }

  function SetLast(rows: seq<Row>, row: Row): (r: seq<Row>)
    requires rows != []
    ensures |r| == |rows| && Last(r) == row && r[..|r| - 1] == rows[..|rows| - 1]
  { rows[|rows| - 1 := row] }

  function Confirm(row: Row): Row { row.(confirmed := true, tx := None, retryAt := 0) }
  function Later(row: Row, now: int): Row { row.(retryAt := now + RETRY_MS) }

  function Backoff(attempts: nat): nat {
    var delay := RETRY_BASE_MS * Pow2(if attempts < 5 then attempts else 5);
    if delay < MAX_BACKOFF_MS then delay else MAX_BACKOFF_MS
  }

  function Catch(row: Row, now: int): Row {
    row.(attempts := row.attempts + 1, retryAt := now + Backoff(row.attempts))
  }

  function Resume(w: Worker, a: Answer, now: int): (w': Worker)
    requires Answers(w, a)
    ensures w'.pc != Idle ==> w'.rows != []
  {
    match a
    case Tick(batch) =>
      if w.rows != [] && Pending(w.rows) then (if now < Last(w.rows).retryAt then w else w.(pc := Inspecting))
      else if batch.None? then w
      else Worker(w.rows + [NewRow(batch.value)], if now < 0 then Idle else Inspecting)
    case Inspected(found) =>
      if found then Worker(SetLast(w.rows, Confirm(Last(w.rows))), Idle)
      else if w.pc == Reinspecting then Worker(SetLast(w.rows, Later(Last(w.rows), now)), Idle)
      else w.(pc := if Last(w.rows).tx.Some? then Expiring else Preparing)
    case Expired(yes) => w.(pc := if yes then Preparing else Sending)
    case Prepared(expiry) =>
      Worker(SetLast(w.rows, Last(w.rows).(tx := Some(Tx(Last(w.rows).root, expiry)))), Sending)
    case Sent => w.(pc := Reinspecting)
    case Threw => Worker(SetLast(w.rows, Catch(Last(w.rows), now)), Idle)
  }

  // ---------- the code of one tick ----------

  /** The rows of the confirmed revision and the batch rule: enough new leaves, or one waiting too long. */
  function LatestLeaves(rows: seq<Row>): nat {
    if rows == [] then 0
    else if rows[|rows| - 1].confirmed && rows[|rows| - 1].revision == LatestConfirmed(rows) then
      rows[|rows| - 1].leafCount
    else LatestLeaves(rows[..|rows| - 1])
  }

  predicate IsDue(config: Config, rows: seq<Row>, b: Batch, force: bool, now: int) {
    force || b.leafCount - LatestLeaves(rows) >= config.batchSize || now - b.oldestPendingAt >= config.maxDelayMs
  }

  function Offered(config: Config, rows: seq<Row>, source: Option<Batch>, force: bool, now: int): Option<Batch> {
    if source.Some? && IsDue(config, rows, source.value, force, now) then source else None
  }

  /** The answers a tick may get; None when the call throws. */
  datatype Oracle = Oracle(inspect: Option<bool>, expired: Option<bool>, prepare: Option<nat>, send: Option<()>,
                           reinspect: Option<bool>)

  class Publisher {
    const config: Config
    var rows: seq<Row>

    constructor (config: Config)
      ensures this.config == config && rows == []
    { this.config, rows := config, []; }

    /** source: what the enrollment service has beyond the latest confirmed revision. */
    method Publish(source: Option<Batch>, force: bool, now: int, o: Oracle)
      modifies this`rows
      ensures rows == Pass(config, old(rows), source, force, now, o)
    {
      if rows == [] || !Pending(rows) {
        if source.None? { return; }
        var b := source.value;
        if !force && b.leafCount - LatestLeaves(rows) < config.batchSize &&
           now - b.oldestPendingAt < config.maxDelayMs { return; }
        rows := rows + [NewRow(b)];
      }
      PublishRow(now, o);
    }

    /** The newest row, which is the pending one. */
    method PublishRow(now: int, o: Oracle)
      requires rows != []
      modifies this`rows
      ensures rows == PassRow(old(rows), now, o)
    {
      if now < rows[|rows| - 1].retryAt { return; }
      if o.inspect.None? { Fail(now); return; }
      if o.inspect.value { Set(Confirm(rows[|rows| - 1])); return; }
      var prepared := rows[|rows| - 1].tx;
      if prepared.Some? {
        if o.expired.None? { Fail(now); return; }
        if o.expired.value { prepared := None; }
      }
      if prepared.None? {
        if o.prepare.None? { Fail(now); return; }
        Set(rows[|rows| - 1].(tx := Some(Tx(rows[|rows| - 1].root, o.prepare.value))));
      }
      Send(now, o);
    }

    method Send(now: int, o: Oracle)
      requires rows != []
      modifies this`rows
      ensures rows == SetLast(old(rows), PassSend(Last(old(rows)), now, o))
    {
      if o.send.None? || o.reinspect.None? { Fail(now); return; }
      Set(if o.reinspect.value then Confirm(rows[|rows| - 1]) else Later(rows[|rows| - 1], now));
    }

    method Set(row: Row)
      requires rows != []
      modifies this`rows
      ensures rows == SetLast(old(rows), row)
    { rows := rows[|rows| - 1 := row]; }

    method Fail(now: int)
      requires rows != []
      modifies this`rows
      ensures rows == SetLast(old(rows), AfterError(Last(old(rows)), now))
    {
      BackoffIsCapped(rows[|rows| - 1].attempts);
      rows := rows[|rows| - 1 := Catch(rows[|rows| - 1], now)];
    }
  }

  /** A tick: nothing, the pending row, or a new row for a batch that is due. */
  function Pass(config: Config, rows: seq<Row>, source: Option<Batch>, force: bool, now: int, o: Oracle): seq<Row> {
    if rows != [] && Pending(rows) then PassRow(rows, now, o)
    else match Offered(config, rows, source, force, now)
      case None => rows
      case Some(b) => PassRow(rows + [Row(b.revision, b.root, b.leafCount, false, None, 0, 0)], now, o)
  }

  function PassRow(rows: seq<Row>, now: int, o: Oracle): seq<Row>
    requires rows != []
  {
    var row, front := rows[|rows| - 1], rows[..|rows| - 1];
    var live := row.tx.Some? && o.expired == Some(false);
    if now < row.retryAt then rows
    else if o.inspect == Some(true) then front + [row.(confirmed := true, tx := None, retryAt := 0)]
    else if o.inspect.None? || (row.tx.Some? && o.expired.None?) then front + [AfterError(row, now)]
    else if live then front + [PassSend(row, now, o)]
    else if o.prepare.None? then front + [AfterError(row, now)]
    else front + [PassSend(row.(tx := Some(Tx(row.root, o.prepare.value))), now, o)]
  }

  function PassSend(row: Row, now: int, o: Oracle): Row {
    if o.send.None? || o.reinspect.None? then AfterError(row, now)
    else if o.reinspect.value then row.(confirmed := true, tx := None, retryAt := 0)
    else row.(retryAt := now + 2_000)
  }

  function AfterError(row: Row, now: int): Row {
    row.(attempts := row.attempts + 1,
         retryAt := now + if row.attempts >= 5 then 30_000 else 1_000 * Pow2(row.attempts))
  }

  // ---------- worker, chain and history ----------

  /** published: the roots whose publication executed, in order. */
  datatype State = State(worker: Worker, height: nat, published: seq<Root>, sent: set<Tx>)

  datatype Event =
    | Reply(a: Answer, now: int)
    | Crash
    | Advance
    | Land(tx: Tx)

  const Start := State(Worker([], Idle), 0, [], {})

  /** A batch offers a revision above the one asked about. Inspection that finds the record is true;
      finding nothing, and every other answer, may be stale. Any sent bytes may land until they expire,
      again and again. */
  predicate Enabled(s: State, e: Event) {
    match e
    case Reply(a, _) =>
      Answers(s.worker, a) &&
      (a.Tick? && a.batch.Some? ==> a.batch.value.revision > LatestConfirmed(s.worker.rows)) &&
      (a.Inspected? && a.found ==> Last(s.worker.rows).root in s.published)
    case Crash => true
    case Advance => true
    case Land(tx) => tx in s.sent && s.height < tx.expiry
  }

  /** Sending starts on the way into the await, so the bytes may arrive from then on. A root's account
      can be created once, so a second publication of it fails on chain. */
  function Step(s: State, e: Event): State
    requires Enabled(s, e)
  {
    match e
    case Reply(a, now) =>
      var w := Resume(s.worker, a, now);
      s.(worker := w,
         sent := if w.pc == Sending && Last(w.rows).tx.Some? then s.sent + {Last(w.rows).tx.value} else s.sent)
    case Crash => s.(worker := s.worker.(pc := Idle))
    case Advance => s.(height := s.height + 1)
    case Land(tx) =>
      s.(height := s.height + 1,
         published := if tx.root in s.published then s.published else s.published + [tx.root])
  }

  ghost predicate IsRun(events: seq<Event>, states: seq<State>) {
    && |states| == |events| + 1 && states[0] == Start
    && (forall i :: 0 <= i < |events| ==> Enabled(states[i], events[i]) && states[i + 1] == Step(states[i], events[i]))
  }

  ghost predicate HasRow(rows: seq<Row>, root: Root) {
    exists i :: 0 <= i < |rows| && rows[i].root == root
  }

  /** All rows but the last are confirmed, and revisions strictly increase. */
  ghost predicate RowsInv(rows: seq<Row>) {
    && (forall i :: 0 <= i < |rows| - 1 ==> rows[i].confirmed)
    && (forall i, j :: 0 <= i < j < |rows| ==> rows[i].revision < rows[j].revision)
  }

  /** What was sent or published has a row, what is confirmed was published, nothing was twice. */
  ghost predicate ChainInv(rows: seq<Row>, published: seq<Root>, sent: set<Tx>) {
    && (forall i :: 0 <= i < |rows| && rows[i].confirmed ==> rows[i].root in published)
    && (forall i, j :: 0 <= i < j < |published| ==> published[i] != published[j])
    && (forall tx :: tx in sent ==> HasRow(rows, tx.root))
    && (forall r :: r in published ==> HasRow(rows, r))
  }

  ghost predicate PcInv(s: State) {
    && (s.worker.rows != [] && Last(s.worker.rows).tx.Some? ==>
         Last(s.worker.rows).tx.value.root == Last(s.worker.rows).root)
    && (s.worker.pc != Idle ==> s.worker.rows != [] && !Last(s.worker.rows).confirmed)
  }

  ghost predicate Inv(s: State) { RowsInv(s.worker.rows) && ChainInv(s.worker.rows, s.published, s.sent) && PcInv(s) }

  lemma {:induction false} LatestIsLast(rows: seq<Row>)
    requires forall i :: 0 <= i < |rows| ==> rows[i].confirmed
    requires forall i, j :: 0 <= i < j < |rows| ==> rows[i].revision < rows[j].revision
    ensures rows != [] ==> LatestConfirmed(rows) == rows[|rows| - 1].revision
  {
    if |rows| > 1 { LatestIsLast(rows[..|rows| - 1]); }
  }

  /** The batch rule compares with the leaves of the newest row. */
  lemma LatestLeavesAreLast(rows: seq<Row>)
    requires forall i :: 0 <= i < |rows| ==> rows[i].confirmed
    requires forall i, j :: 0 <= i < j < |rows| ==> rows[i].revision < rows[j].revision
    ensures LatestLeaves(rows) == if rows == [] then 0 else Last(rows).leafCount
  {
    LatestIsLast(rows);
  }

  lemma AddRow(rows: seq<Row>, row: Row)
    requires RowsInv(rows) && (forall i :: 0 <= i < |rows| ==> rows[i].confirmed)
    requires row.revision > LatestConfirmed(rows)
    ensures RowsInv(rows + [row])
  {
    LatestIsLast(rows);
  }

  /** Rows may be added, and a row may be rewritten, as long as no root disappears and what becomes
      confirmed was published. */
  lemma RowsGrow(rows: seq<Row>, rows': seq<Row>, published: seq<Root>, sent: set<Tx>)
    requires ChainInv(rows, published, sent) && |rows| <= |rows'|
    requires forall i :: 0 <= i < |rows| ==> rows'[i].root == rows[i].root
    requires forall i :: 0 <= i < |rows'| && rows'[i].confirmed ==> rows'[i].root in published
    ensures ChainInv(rows', published, sent)
  {
    forall r | HasRow(rows, r) ensures HasRow(rows', r) {
      var i :| 0 <= i < |rows| && rows[i].root == r;
      assert rows'[i].root == r;
    }
  }

  lemma TickKeepsInv(s: State, batch: Option<Batch>, now: int)
    requires Inv(s) && Enabled(s, Reply(Tick(batch), now))
    ensures Inv(Step(s, Reply(Tick(batch), now)))
  {
    var rows := s.worker.rows;
    if !(rows != [] && Pending(rows)) && batch.Some? {
      AddRow(rows, NewRow(batch.value));
      RowsGrow(rows, rows + [NewRow(batch.value)], s.published, s.sent);
    }
  }

  /** Rewriting the open last row, keeping its root and revision. */
  lemma RewriteKeeps(s: State, row: Row)
    requires Inv(s) && s.worker.pc != Idle
    requires var last := Last(s.worker.rows); row.root == last.root && row.revision == last.revision
    requires row.confirmed ==> row.root in s.published
    ensures RowsInv(SetLast(s.worker.rows, row)) && ChainInv(SetLast(s.worker.rows, row), s.published, s.sent)
  {
    RowsGrow(s.worker.rows, SetLast(s.worker.rows, row), s.published, s.sent);
  }

  /** Sending the last row's own transaction. */
  lemma SendKeeps(rows: seq<Row>, published: seq<Root>, sent: set<Tx>)
    requires ChainInv(rows, published, sent) && rows != [] && Last(rows).tx.Some?
    requires Last(rows).tx.value.root == Last(rows).root
    ensures ChainInv(rows, published, sent + {Last(rows).tx.value})
  {
    assert HasRow(rows, Last(rows).root);
  }

  lemma ReplyKeepsInv(s: State, a: Answer, now: int)
    requires Inv(s) && Enabled(s, Reply(a, now)) && !a.Tick?
    ensures Inv(Step(s, Reply(a, now)))
  {
    var rows' := Resume(s.worker, a, now).rows;
    RewriteKeeps(s, Last(rows'));
    assert rows' == SetLast(s.worker.rows, Last(rows'));
    if Last(rows').tx.Some? { SendKeeps(rows', s.published, s.sent); }
  }

  lemma LandKeepsInv(s: State, tx: Tx)
    requires Inv(s) && Enabled(s, Land(tx))
    ensures Inv(Step(s, Land(tx)))
  {
    assert HasRow(s.worker.rows, tx.root);
  }

  lemma StepKeepsInv(s: State, e: Event)
    requires Inv(s) && Enabled(s, e)
    ensures Inv(Step(s, e))
  {
    match e
    case Reply(a, now) =>
      if a.Tick? { TickKeepsInv(s, a.batch, now); } else { ReplyKeepsInv(s, a, now); }
    case Land(tx) => LandKeepsInv(s, tx);
    case _ =>
  }

  lemma {:induction false} RunKeepsInv(events: seq<Event>, states: seq<State>, k: nat)
    requires IsRun(events, states) && k < |states|
    ensures Inv(states[k])
  {
    if k > 0 {
      RunKeepsInv(events, states, k - 1);
      assert states[k - 1 + 1] == Step(states[k - 1], events[k - 1]);
      StepKeepsInv(states[k - 1], events[k - 1]);
    }
  }

  /** Over every run: only the newest row can be unconfirmed, revisions strictly increase, and every
      confirmed root is on chain. */
  lemma PublisherIsOrderly(events: seq<Event>, states: seq<State>, k: nat, i: nat)
    requires IsRun(events, states) && k < |states| && i < |states[k].worker.rows|
    ensures i + 1 < |states[k].worker.rows| ==>
      states[k].worker.rows[i].confirmed && states[k].worker.rows[i].revision < states[k].worker.rows[i + 1].revision
    ensures states[k].worker.rows[i].confirmed ==> states[k].worker.rows[i].root in states[k].published
  {
    RunKeepsInv(events, states, k);
  }

  // ---------- what the publisher publishes ----------

  function RootsOf(rows: seq<Row>): (roots: seq<Root>)
    ensures |roots| == |rows| && forall i :: 0 <= i < |rows| ==> roots[i] == rows[i].root
  {
    seq(|rows|, i requires 0 <= i < |rows| => rows[i].root)
  }

  /** Each root at its first occurrence. */
  function FirstTimes(roots: seq<Root>): (first: seq<Root>)
    ensures forall r :: r in first <==> r in roots
  {
    if roots == [] then []
    else
      assert roots == roots[..|roots| - 1] + [roots[|roots| - 1]];
      var first := FirstTimes(roots[..|roots| - 1]);
      if roots[|roots| - 1] in first then first else first + [roots[|roots| - 1]]
  }

  lemma {:induction false} FirstTimesOfDistinct(roots: seq<Root>)
    requires forall i, j :: 0 <= i < j < |roots| ==> roots[i] != roots[j]
    ensures FirstTimes(roots) == roots
  {
    if roots != [] { FirstTimesOfDistinct(roots[..|roots| - 1]); }
  }

  lemma {:induction false} FirstTimesDistinct(roots: seq<Root>)
    ensures forall i, j :: 0 <= i < j < |FirstTimes(roots)| ==> FirstTimes(roots)[i] != FirstTimes(roots)[j]
  {
    if roots != [] { FirstTimesDistinct(roots[..|roots| - 1]); }
  }

  /** The chain is at most one row behind, and never behind a confirmed one. */
  ghost predicate InOrder(rows: seq<Row>, published: seq<Root>) {
    || published == FirstTimes(RootsOf(rows))
    || (rows != [] && !rows[|rows| - 1].confirmed && published == FirstTimes(RootsOf(rows[..|rows| - 1])))
  }

  lemma FirstTimesNext(rows: seq<Row>)
    requires rows != []
    ensures var first, last := FirstTimes(RootsOf(rows[..|rows| - 1])), rows[|rows| - 1].root;
      FirstTimes(RootsOf(rows)) == if last in first then first else first + [last]
  {
    assert RootsOf(rows)[..|rows| - 1] == RootsOf(rows[..|rows| - 1]);
  }

  lemma HasRowIsRoot(rows: seq<Row>, root: Root)
    ensures HasRow(rows, root) <==> root in RootsOf(rows)
  {
    if HasRow(rows, root) {
      var i :| 0 <= i < |rows| && rows[i].root == root;
      assert RootsOf(rows)[i] == root;
    }
  }

  /** Rewriting the last row keeps the order if its root stays and, once confirmed, was published. */
  lemma RewriteKeepsOrder(rows: seq<Row>, row: Row, published: seq<Root>)
    requires InOrder(rows, published) && rows != [] && !Last(rows).confirmed && row.root == Last(rows).root
    requires row.confirmed ==> row.root in published
    ensures InOrder(SetLast(rows, row), published)
  {
    var rows' := SetLast(rows, row);
    assert RootsOf(rows') == RootsOf(rows);
    FirstTimesNext(rows);
  }

  /** A root that is new to the chain but has a row is that of the newest row. */
  lemma OnlyNewestMissing(rows: seq<Row>, published: seq<Root>, root: Root)
    requires InOrder(rows, published) && root in RootsOf(rows) && root !in published
    ensures rows != [] && root == rows[|rows| - 1].root && published == FirstTimes(RootsOf(rows[..|rows| - 1]))
  {
    assert published != FirstTimes(RootsOf(rows));
    FirstTimesNext(rows);
  }

  lemma LandKeepsOrder(s: State, tx: Tx)
    requires InOrder(s.worker.rows, s.published) && HasRow(s.worker.rows, tx.root) && tx.root !in s.published
    ensures InOrder(s.worker.rows, s.published + [tx.root])
  {
    HasRowIsRoot(s.worker.rows, tx.root);
    OnlyNewestMissing(s.worker.rows, s.published, tx.root);
    FirstTimesNext(s.worker.rows);
  }

  lemma TickKeepsOrder(rows: seq<Row>, row: Row, published: seq<Root>)
    requires InOrder(rows, published) && (rows != [] ==> Last(rows).confirmed) && !row.confirmed
    ensures InOrder(rows + [row], published)
  {
    assert (rows + [row])[..|rows|] == rows;
  }

  lemma ReplyKeepsOrder(s: State, a: Answer, now: int)
    requires Inv(s) && Enabled(s, Reply(a, now)) && InOrder(s.worker.rows, s.published)
    ensures InOrder(Resume(s.worker, a, now).rows, s.published)
  {
    var rows, rows' := s.worker.rows, Resume(s.worker, a, now).rows;
    if a.Tick? {
      if |rows'| > |rows| { TickKeepsOrder(rows, NewRow(a.batch.value), s.published); }
    } else {
      RewriteKeepsOrder(rows, Last(rows'), s.published);
      assert rows' == SetLast(rows, Last(rows'));
    }
  }

  lemma StepKeepsOrder(s: State, e: Event)
    requires Inv(s) && Enabled(s, e) && InOrder(s.worker.rows, s.published)
    ensures InOrder(Step(s, e).worker.rows, Step(s, e).published)
  {
    match e
    case Reply(a, now) => ReplyKeepsOrder(s, a, now);
    case Land(tx) => if tx.root !in s.published { LandKeepsOrder(s, tx); }
    case _ =>
  }

  /** Over every run, with crashes and re-preparing after expiry, what got published are the roots of
      the rows in row order, each once; at most the newest row is missing, and none that is confirmed. */
  lemma {:induction false} PublishedInRowOrder(events: seq<Event>, states: seq<State>, k: nat)
    requires IsRun(events, states) && k < |states|
    ensures InOrder(states[k].worker.rows, states[k].published)
  {
    if k > 0 {
      PublishedInRowOrder(events, states, k - 1);
      NextInOrder(events, states, k - 1);
    }
  }

  lemma NextInOrder(events: seq<Event>, states: seq<State>, i: nat)
    requires IsRun(events, states) && i < |events| && InOrder(states[i].worker.rows, states[i].published)
    ensures InOrder(states[i + 1].worker.rows, states[i + 1].published)
  {
    RunKeepsInv(events, states, i);
    StepKeepsOrder(states[i], events[i]);
  }

  /** So no root is published twice, and never a root without a row. */
  lemma EachRootOnce(events: seq<Event>, states: seq<State>, k: nat, i: nat, j: nat)
    requires IsRun(events, states) && k < |states| && i < j < |states[k].published|
    ensures states[k].published[i] != states[k].published[j]
    ensures HasRow(states[k].worker.rows, states[k].published[i])
  {
    var s := states[k];
    PublishedInRowOrder(events, states, k);
    FirstTimesDistinct(RootsOf(s.worker.rows));
    if s.worker.rows != [] { FirstTimesDistinct(RootsOf(s.worker.rows[..|s.worker.rows| - 1])); }
    RunKeepsInv(events, states, k);
    assert s.published[i] in s.published;
  }

  predicate Offers(e: Event) { e.Reply? && e.a.Tick? && e.a.batch.Some? }

  /** Every batch offers a root that has no row yet. */
  ghost predicate FreshBatches(events: seq<Event>, states: seq<State>)
    requires |states| == |events| + 1
  {
    forall i :: 0 <= i < |events| && Offers(events[i]) ==> !HasRow(states[i].worker.rows, events[i].a.batch.value.root)
  }

  lemma {:induction false} FreshRows(events: seq<Event>, states: seq<State>, k: nat)
    requires IsRun(events, states) && FreshBatches(events, states) && k < |states|
    ensures var rows := states[k].worker.rows;
      forall i, j :: 0 <= i < j < |rows| ==> rows[i].root != rows[j].root
  {
    if k > 0 {
      FreshRows(events, states, k - 1);
      RunKeepsInv(events, states, k - 1);
      var s := states[k - 1];
      assert states[k - 1 + 1] == Step(s, events[k - 1]);
      forall i | 0 <= i < |s.worker.rows| ensures HasRow(s.worker.rows, s.worker.rows[i].root) {}
    }
  }

  /** After any run the active roots on chain are those of the last min(4, n) of the n published rows,
      newest first; the published rows are all but possibly the newest, which then is unconfirmed. */
  lemma ActiveRootsOfRun(events: seq<Event>, states: seq<State>, k: nat)
    requires IsRun(events, states) && FreshBatches(events, states) && k < |states|
    ensures var s := states[k];
      var n := |s.published|;
      |s.worker.rows| - 1 <= n <= |s.worker.rows| && (n < |s.worker.rows| ==> !Last(s.worker.rows).confirmed) &&
      s.published == RootsOf(s.worker.rows)[..n] &&
      ActiveRoots(Published(s.published)) == Newest(RootsOf(s.worker.rows)[..n], SLOTS)
  {
    var s := states[k];
    PublishedInRowOrder(events, states, k);
    FreshRows(events, states, k);
    OrderedPrefix(s.worker.rows, s.published);
    ActiveAreTheLastFour(s.published);
  }

  lemma OrderedPrefix(rows: seq<Row>, published: seq<Root>)
    requires InOrder(rows, published) && forall i, j :: 0 <= i < j < |rows| ==> rows[i].root != rows[j].root
    ensures |rows| - 1 <= |published| <= |rows| && (|published| < |rows| ==> !rows[|rows| - 1].confirmed)
    ensures published == RootsOf(rows)[..|published|]
  {
    FirstTimesOfDistinct(RootsOf(rows));
    if rows != [] {
      FirstTimesOfDistinct(RootsOf(rows[..|rows| - 1]));
      assert RootsOf(rows[..|rows| - 1]) == RootsOf(rows)[..|rows| - 1];
    }
  }

  // ---------- the worker makes the pass ----------

  function AnswerFrom(o: Oracle, pc: Pc): Answer
    requires pc != Idle
  {
    match pc
    case Inspecting => if o.inspect.None? then Threw else Inspected(o.inspect.value)
    case Expiring => if o.expired.None? then Threw else Expired(o.expired.value)
    case Preparing => if o.prepare.None? then Threw else Prepared(o.prepare.value)
    case Sending => if o.send.None? then Threw else Sent
    case Reinspecting => if o.reinspect.None? then Threw else Inspected(o.reinspect.value)
  }

  function Awaits(pc: Pc): nat {
    match pc
    case Idle => 0
    case Inspecting => 5
    case Expiring => 4
    case Preparing => 3
    case Sending => 2
    case Reinspecting => 1
  }

  function Drive(w: Worker, now: int, o: Oracle): seq<Row>
    requires w.pc != Idle ==> w.rows != []
    decreases Awaits(w.pc)
  {
    if w.pc.Idle? then w.rows else Drive(Resume(w, AnswerFrom(o, w.pc), now), now, o)
  }

  lemma BackoffIsCapped(attempts: nat)
    ensures Backoff(attempts) == if attempts >= 5 then 30_000 else 1_000 * Pow2(attempts)
  {
    assert Pow2(5) == 2 * Pow2(4) && Pow2(4) == 16 by { Pow2Plus4(0); }
    if attempts < 5 { Pow2Mono(attempts, 4); }
  }

  lemma DriveNext(w: Worker, now: int, o: Oracle)
    requires w.pc != Idle && w.rows != []
    ensures Drive(w, now, o) == Drive(Resume(w, AnswerFrom(o, w.pc), now), now, o)
  {
  }

  lemma DriveSending(rows: seq<Row>, now: int, o: Oracle)
    requires rows != []
    ensures Drive(Worker(rows, Sending), now, o) == rows[..|rows| - 1] + [PassSend(Last(rows), now, o)]
  {
    BackoffIsCapped(Last(rows).attempts);
    DriveNext(Worker(rows, Sending), now, o);
    if o.send.Some? { DriveNext(Worker(rows, Reinspecting), now, o); }
  }

  lemma DrivePreparing(rows: seq<Row>, now: int, o: Oracle)
    requires rows != []
    ensures var row, front := Last(rows), rows[..|rows| - 1];
      Drive(Worker(rows, Preparing), now, o) ==
        if o.prepare.None? then front + [AfterError(row, now)]
        else front + [PassSend(row.(tx := Some(Tx(row.root, o.prepare.value))), now, o)]
  {
    BackoffIsCapped(Last(rows).attempts);
    DriveNext(Worker(rows, Preparing), now, o);
    if o.prepare.Some? {
      DriveSending(SetLast(rows, Last(rows).(tx := Some(Tx(Last(rows).root, o.prepare.value)))), now, o);
    }
  }

  lemma DriveExpiring(rows: seq<Row>, now: int, o: Oracle)
    requires rows != []
    ensures Drive(Worker(rows, Expiring), now, o) ==
      if o.expired == Some(false) then Drive(Worker(rows, Sending), now, o)
      else if o.expired == Some(true) then Drive(Worker(rows, Preparing), now, o)
      else rows[..|rows| - 1] + [AfterError(Last(rows), now)]
  {
    ThreeAnswers(o.expired);
    BackoffIsCapped(Last(rows).attempts);
    DriveNext(Worker(rows, Expiring), now, o);
  }

  lemma DriveMissing(rows: seq<Row>, now: int, o: Oracle)
    requires rows != [] && now >= Last(rows).retryAt && o.inspect == Some(false)
    ensures Drive(Worker(rows, if Last(rows).tx.Some? then Expiring else Preparing), now, o) == PassRow(rows, now, o)
  {
    DrivePreparing(rows, now, o);
    DriveSending(rows, now, o);
    DriveExpiring(rows, now, o);
    ThreeAnswers(o.expired);
  }

  lemma DriveRow(rows: seq<Row>, now: int, o: Oracle)
    requires rows != [] && now >= Last(rows).retryAt
    ensures Drive(Worker(rows, Inspecting), now, o) == PassRow(rows, now, o)
  {
    ThreeAnswers(o.inspect);
    DriveNext(Worker(rows, Inspecting), now, o);
    if o.inspect == Some(false) { DriveMissing(rows, now, o); } else { BackoffIsCapped(Last(rows).attempts); }
  }

  /** A tick of the worker, suspended at every await, does what the straight-line code does. */
  lemma WorkerMakesThePass(config: Config, rows: seq<Row>, source: Option<Batch>, force: bool, now: int, o: Oracle)
    ensures Drive(Resume(Worker(rows, Idle), Tick(Offered(config, rows, source, force, now)), now), now, o) ==
      Pass(config, rows, source, force, now, o)
  {
    var w := Resume(Worker(rows, Idle), Tick(Offered(config, rows, source, force, now)), now);
    if w.pc == Inspecting { DriveRow(w.rows, now, o); }
  }

  // ---------- what a tick comes to ----------

  /** The root is not found, and there are bytes to send: unexpired ones, or else new ones. */
  predicate Sends(row: Row, o: Oracle) {
    o.inspect == Some(false) &&
    (if row.tx.None? then o.prepare != None
     else o.expired == Some(false) || (o.expired == Some(true) && o.prepare != None))
  }

  predicate Found(row: Row, o: Oracle) {
    o.inspect == Some(true) || (Sends(row, o) && o.send != None && o.reinspect == Some(true))
  }

  /** A due row is confirmed exactly when its root is found, before or after sending. Without an error it is
      looked at again after two seconds, and with one later and later, up to half a minute. Bytes are
      replaced only when there are none or they have expired. */
  lemma TickMeans(rows: seq<Row>, now: int, o: Oracle)
    requires rows != [] && Last(rows).retryAt <= now && !Last(rows).confirmed
    ensures var row, after := Last(rows), PassRow(rows, now, o);
      |after| == |rows| && after[..|rows| - 1] == rows[..|rows| - 1] &&
      var row' := Last(after);
      row'.revision == row.revision && row'.root == row.root && row'.leafCount == row.leafCount &&
      (row'.confirmed <==> Found(row, o)) && (row'.confirmed ==> row'.tx == None && row'.attempts == row.attempts) &&
      (!row'.confirmed ==>
        (row'.attempts == row.attempts <==> Sends(row, o) && o.send != None && o.reinspect == Some(false)) &&
        (row'.attempts == row.attempts ==> row'.retryAt == now + 2_000) &&
        (row'.attempts != row.attempts ==> row'.attempts == row.attempts + 1 && row'.retryAt == now + Delay(row)) &&
        row'.tx == if Sends(row, o) && (row.tx.None? || o.expired == Some(true))
                   then Some(Tx(row.root, o.prepare.value)) else row.tx)
  {
    ThreeAnswers(o.inspect);
    ThreeAnswers(o.expired);
    ThreeAnswers(o.reinspect);
    FirstPowers();
  }

  lemma ThreeAnswers(a: Option<bool>)
    ensures a == None || a == Some(true) || a == Some(false)
  {
    if a.Some? {
      var yes := a.value;
      assert a == Some(yes) && (yes == true || yes == false);
    }
  }

  lemma FirstPowers()
    ensures Pow2(0) == 1 && Pow2(1) == 2 && Pow2(2) == 4 && Pow2(3) == 8 && Pow2(4) == 16
  {
    assert Pow2(1) == 2 * Pow2(0) && Pow2(2) == 2 * Pow2(1) && Pow2(3) == 2 * Pow2(2) && Pow2(4) == 2 * Pow2(3);
  }

  function Delay(row: Row): int {
    if row.attempts == 0 then 1_000 else if row.attempts == 1 then 2_000 else if row.attempts == 2 then 4_000
    else if row.attempts == 3 then 8_000 else if row.attempts == 4 then 16_000 else 30_000
  }

  /** With nothing pending a batch becomes a row when it is asked for, brings enough leaves beyond the newest
      row, or has waited long enough; otherwise nothing happens. */
  lemma TickStarts(config: Config, rows: seq<Row>, source: Option<Batch>, force: bool, now: int, o: Oracle)
    requires forall i :: 0 <= i < |rows| ==> rows[i].confirmed
    requires forall i, j :: 0 <= i < j < |rows| ==> rows[i].revision < rows[j].revision
    ensures var known := if rows == [] then 0 else Last(rows).leafCount;
      Pass(config, rows, source, force, now, o) ==
        if source.Some? && (force || source.value.leafCount >= known + config.batchSize ||
                            source.value.oldestPendingAt + config.maxDelayMs <= now)
        then PassRow(rows + [Row(source.value.revision, source.value.root, source.value.leafCount, false, None, 0, 0)],
                     now, o)
        else rows
  {
    LatestLeavesAreLast(rows);
  }
}
