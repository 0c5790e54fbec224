/** The remediation queue's table (agent/knowledge_base.py): its rows, and the steps that the
    drainer, the reaper, the executor Jobs, the trackers and the operators take on it. */
module RemediationTable {
  import opened Wrappers
  import opened Remediation
  import opened RemediationPolicy
  import opened Floats
  import Dedupe
  import opened Text

  /** `payload.source` of one command that a named admin confirmed. */
  const CONFIRMED_SOURCE := "console-chat-confirm"

  datatype Row = Row(cls: string, risk: string, confidence: Option<Floating>, status: Status, priority: int,
                     attempts: nat, payload: Payload, prUrl: Option<string>, job: Option<string>,
                     claimedAt: Option<int>, createdAt: int)

  /** A table: rows are never deleted, and the row with id `n` is at index `n - 1`. */
  type Table = seq<Row>

  predicate Exists(rows: Table, id: nat) {
    1 <= id <= |rows|
  }

  function RowOf(rows: Table, id: nat): Row
    requires Exists(rows, id)
  {
    rows[id - 1]
  }

  function With(rows: Table, id: nat, row: Row): Table
    requires Exists(rows, id)
  {
    rows[id - 1 := row]
  }

  predicate Confirmed(row: Row) {
    row.payload.source == CONFIRMED_SOURCE
  }

  // ---- what each operation does to the table --------------------------------------

  function PrOf(prUrl: Option<string>): Option<string> {
    if prUrl.Some? && Strip(prUrl.value) != "" then Some(Strip(prUrl.value)) else None
  }

  /** The enqueue-side exact check over every open row. */
  predicate KeyTaken(rows: Table, key: string) {
    exists id: nat :: 1 <= id <= |rows| && !Terminal(RowOf(rows, id).status) && RowOf(rows, id).payload.dedupeKey == key
  }

  function EntryStatus(policy: Policy, cls: string, risk: string, confidence: Option<Floating>, pr: Option<string>): Status {
    if pr.Some? then PrOpen
    else if AutoEligible(policy, NormalizedClass(cls), NormalizedRisk(risk), confidence) then Queued
    else NeedsHuman
  }

  function NewRow(policy: Policy, cls: string, risk: string, confidence: Option<Floating>, priority: int,
                  payload: Payload, prUrl: Option<string>, now: int): Row {
    Row(NormalizedClass(cls), NormalizedRisk(risk), confidence,
        EntryStatus(policy, cls, risk, confidence, PrOf(prUrl)), priority, 0, payload, PrOf(prUrl), None, None, now)
  }

  function ConfirmedRow(payload: Payload, job: string, now: int): Row {
    Row("node-action", "high", None, Claimed, 1, 0, payload, None, Some(job), Some(now), now)
  }

  function ClaimedRow(row: Row, job: string, now: int): Row {
    row.(status := Claimed, job := Some(job), claimedAt := Some(now))
  }

  function ReleasedRow(row: Row): Row {
    row.(status := Queued, job := None, claimedAt := None)
  }

  function FailedRow(policy: Policy, row: Row): Row {
    var counted := row.(attempts := row.attempts + 1);
    if Confirmed(row) then counted.(status := Failed)
    else if counted.attempts >= policy.maxAttempts then counted.(status := NeedsHuman)
    else counted.(status := Queued, job := None, claimedAt := None)
  }

  function UpdatedRow(row: Row, status: Status, prUrl: Option<string>): Row {
    row.(status := status, prUrl := if prUrl.Some? then prUrl else row.prUrl)
  }

  /** The row under a merged payload patch, which leaves its status alone. */
  function MergedRow(row: Row, prUrl: Option<string>): Row {
    row.(prUrl := if prUrl.Some? then prUrl else row.prUrl)
  }

  predicate Regated(status: Status) {
    status.Queued? || status.NeedsHuman? || status.Failed?
  }

  /** What an operator changes about a row; None leaves a field as it is. */
  datatype Override = Override(cls: Option<string>, risk: Option<string>, confidence: Option<Floating>)

  function ReclassifiedRow(policy: Policy, row: Row, o: Override): Row {
    var changed := row.(
      cls := NormalizedClass(if o.cls.Some? then o.cls.value else row.cls),
      risk := NormalizedRisk(if o.risk.Some? then o.risk.value else row.risk),
      confidence := if o.confidence.Some? then o.confidence else row.confidence);
    if !Regated(row.status) then changed
    else if AutoEligible(policy, changed.cls, changed.risk, changed.confidence) then changed.(status := Queued)
    else changed.(status := NeedsHuman)
  }

  /** `remediation_approve_conflict` */
  predicate ApproveConflict(row: Row) {
    row.cls == "manual" || (row.prUrl.Some? && row.prUrl.value != "")
  }

  /** A row that a recovered node may close. */
  predicate AutoResolvable(status: Status) {
    status.Queued? || status.NeedsHuman? || status.Filed?
  }

  function RecoveredRow(row: Row, keys: set<string>): Row {
    if !Terminal(row.status) && row.payload.dedupeKey in keys && AutoResolvable(row.status)
    then row.(status := Resolved) else row
  }

  function Recovered(rows: Table, keys: set<string>): Table {
    seq(|rows|, i requires 0 <= i < |rows| => RecoveredRow(rows[i], keys))
  }

  // ---- claiming ---------------------------------------------------------------------

  predicate Claimable(rows: Table, exclude: set<nat>, id: nat) {
    Exists(rows, id) && id !in exclude && RowOf(rows, id).status.Queued?
  }

  /** The claim order: priority, then age. */
  predicate NotAfter(a: Row, b: Row) {
    a.priority < b.priority || (a.priority == b.priority && a.createdAt <= b.createdAt)
  }

  predicate IsNext(rows: Table, exclude: set<nat>, id: nat) {
    && Claimable(rows, exclude, id)
    && forall other: nat :: 1 <= other <= |rows| && Claimable(rows, exclude, other) ==>
         NotAfter(RowOf(rows, id), RowOf(rows, other))
  }

  // ---- reaping ----------------------------------------------------------------------

  predicate Expired(row: Row, cutoff: int) {
    InFlight(row.status) && row.claimedAt.Some? && row.claimedAt.value < cutoff
  }

  predicate StaleAt(rows: Table, cutoff: int, id: nat) {
    Exists(rows, id) && Expired(RowOf(rows, id), cutoff)
  }

  function Stale(rows: Table, cutoff: int): set<nat> {
    set id: nat | 1 <= id <= |rows| && StaleAt(rows, cutoff, id)
  }

  function Reaped(policy: Policy, rows: Table, cutoff: int): Table {
    seq(|rows|, i requires 0 <= i < |rows| => if Expired(rows[i], cutoff) then FailedRow(policy, rows[i]) else rows[i])
  }

  // ---- steps ------------------------------------------------------------------------

  /** One transaction on the table, or one thing a caller does without the table. An Approve
      reads the row and writes it in two transactions. `Persist` is the write that keeps an
      approved change record on the row; `HandOff` is the drainer, or the path of a confirmed
      command, letting go of a row that it has claimed; `MergePayload` is what a deep report's own
      pull request leaves on the row that the report enqueued; `SelectStale` is the reaper's read and
      `ReaperFail` one of its writes; `Reload` puts a newly read configuration in force. */
  datatype Step =
    | Enqueue(cls: string, payload: Payload, risk: string, confidence: Option<Floating>, priority: int,
              dedupeKey: string, prUrl: Option<string>, now: int)
    | EnqueueConfirmed(payload: Payload, job: string, now: int)
    | Claim(id: nat, job: string, exclude: set<nat>, now: int)
    | Persist(id: nat)
    | Release(id: nat)
    | DrainerFail(id: nat)
    | HandOff(id: nat)
    | SelectStale(now: int)
    | ReaperFail(id: nat)
    | SetStatus(id: nat, status: Status, prUrl: Option<string>)
    | Reclassify(id: nat, override: Override)
    | ApproveReads(id: nat)
    | ApproveWrites(id: nat)
    | RecordAlias(id: nat, key: string)
    | MergePayload(id: nat, prUrl: Option<string>)
    | Recover(keys: set<string>)
    | Reload(policy: Policy)

  predicate Targets(step: Step, id: nat) {
    match step
    case Enqueue(_, _, _, _, _, _, _, _) => false
    case EnqueueConfirmed(_, _, _) => false
    case SelectStale(_) => false
    case Reload(_) => false
    case Recover(_) => true
    case _ => step.id == id
  }

  function RowAfter(policy: Policy, row: Row, step: Step): Row {
    match step
    case Claim(_, job, _, now) => ClaimedRow(row, job, now)
    case Persist(_) => UpdatedRow(row, Claimed, None)
    case Release(_) => ReleasedRow(row)
    case DrainerFail(_) => FailedRow(policy, row)
    case ReaperFail(_) => FailedRow(policy, row)
    case SetStatus(_, status, prUrl) => UpdatedRow(row, status, prUrl)
    case Reclassify(_, o) => ReclassifiedRow(policy, row, o)
    case ApproveWrites(_) => UpdatedRow(row, Queued, None)
    case RecordAlias(_, key) => row.(payload := Dedupe.WithAlias(row.payload, key))
    case MergePayload(_, prUrl) => MergedRow(row, prUrl)
    case Recover(keys) => RecoveredRow(row, keys)
    case _ => row
  }

  function Appended(policy: Policy, rows: Table, step: Step): Option<Row> {
    match step
    case Enqueue(cls, payload, risk, confidence, priority, key, prUrl, now) =>
      if key != "" && KeyTaken(rows, key) then None
      else Some(NewRow(policy, cls, risk, confidence, priority, payload, prUrl, now))
    case EnqueueConfirmed(payload, job, now) =>
      if payload.source != CONFIRMED_SOURCE then None else Some(ConfirmedRow(payload, job, now))
    case _ => None
  }

  /** What a step does to the table. */
  function Effect(policy: Policy, rows: Table, step: Step): Table {
    match Appended(policy, rows, step)
    case Some(row) => rows + [row]
    case None => seq(|rows|, i requires 0 <= i < |rows| =>
                   if Targets(step, i + 1) then RowAfter(policy, rows[i], step) else rows[i])
  }

  lemma EffectAt(policy: Policy, rows: Table, step: Step, id: nat)
    ensures Exists(rows, id) ==>
              && Exists(Effect(policy, rows, step), id)
              && RowOf(Effect(policy, rows, step), id)
                 == if Targets(step, id) then RowAfter(policy, RowOf(rows, id), step) else RowOf(rows, id)
    ensures !Exists(rows, id) && Exists(Effect(policy, rows, step), id) ==>
              && id == |rows| + 1 && Appended(policy, rows, step).Some?
              && RowOf(Effect(policy, rows, step), id) == Appended(policy, rows, step).value
  {
  }

  lemma EffectOnOne(policy: Policy, rows: Table, step: Step, id: nat)
    requires Appended(policy, rows, step).None?
    ensures step.Recover? ==> Effect(policy, rows, step) == Recovered(rows, step.keys)
    ensures !step.Recover? && Targets(step, id) && Exists(rows, id) ==>
              Effect(policy, rows, step) == With(rows, id, RowAfter(policy, RowOf(rows, id), step))
    ensures !step.Recover? && Targets(step, id) && !Exists(rows, id) ==> Effect(policy, rows, step) == rows
    ensures step.Enqueue? || step.EnqueueConfirmed? ==> Effect(policy, rows, step) == rows
  {
    assert Effect(policy, rows, step)
        == seq(|rows|, i requires 0 <= i < |rows| =>
             if Targets(step, i + 1) then RowAfter(policy, rows[i], step) else rows[i]);
  }

  /** One failure for each id read, in order. */
  function AfterFails(policy: Policy, rows: Table, ids: seq<nat>): Table {
    if ids == [] then rows else Effect(policy, AfterFails(policy, rows, ids[..|ids| - 1]), ReaperFail(ids[|ids| - 1]))
  }

  lemma {:induction false} FailsKeepLength(policy: Policy, rows: Table, ids: seq<nat>)
    ensures |AfterFails(policy, rows, ids)| == |rows|
    decreases |ids|
  {
    if ids != [] {
      FailsKeepLength(policy, rows, ids[..|ids| - 1]);
    }
  }

  lemma {:induction false} FailsAt(policy: Policy, rows: Table, ids: seq<nat>, id: nat)
    requires Exists(rows, id) && forall i, j :: 0 <= i < j < |ids| ==> ids[i] != ids[j]
    ensures |AfterFails(policy, rows, ids)| == |rows|
    ensures RowOf(AfterFails(policy, rows, ids), id)
         == if id in ids then FailedRow(policy, RowOf(rows, id)) else RowOf(rows, id)
    decreases |ids|
  {
    if ids != [] {
      var before, last := ids[..|ids| - 1], ids[|ids| - 1];
      FailsAt(policy, rows, before, id);
      EffectAt(policy, AfterFails(policy, rows, before), ReaperFail(last), id);
      assert ids == before + [last] && last !in before;
    }
  }

  lemma FailsAtIndex(policy: Policy, rows: Table, cutoff: int, ids: seq<nat>, i: nat)
    requires i < |rows| && forall i, j :: 0 <= i < j < |ids| ==> ids[i] != ids[j]
    requires i + 1 in ids <==> StaleAt(rows, cutoff, i + 1)
    ensures |AfterFails(policy, rows, ids)| == |rows|
    ensures AfterFails(policy, rows, ids)[i] == Reaped(policy, rows, cutoff)[i]
  {
    FailsAt(policy, rows, ids, i + 1);
    assert RowOf(AfterFails(policy, rows, ids), i + 1) == AfterFails(policy, rows, ids)[i];
  }

  /** Failing each row whose lease had expired, once each and uninterrupted, is the whole reap. */
  lemma FailsAreReap(policy: Policy, rows: Table, cutoff: int, ids: seq<nat>)
    requires forall i, j :: 0 <= i < j < |ids| ==> ids[i] != ids[j]
    requires forall id: nat :: id in ids <==> StaleAt(rows, cutoff, id)
    ensures AfterFails(policy, rows, ids) == Reaped(policy, rows, cutoff)
  {
    FailsKeepLength(policy, rows, ids);
    forall i | 0 <= i < |rows|
      ensures AfterFails(policy, rows, ids)[i] == Reaped(policy, rows, cutoff)[i]
    {
      FailsAtIndex(policy, rows, cutoff, ids, i);
    }
  }

  function Members(ids: seq<nat>): set<nat> {
    set id | id in ids
  }

  lemma {:induction false} AscendingCount(ids: seq<nat>)
    requires forall k, l :: 0 <= k < l < |ids| ==> ids[k] < ids[l]
    ensures |Members(ids)| == |ids|
  {
    if ids != [] {
      var before, last := ids[..|ids| - 1], ids[|ids| - 1];
      AscendingCount(before);
      assert ids == before + [last];
      assert Members(ids) == Members(before) + {last};
      assert last !in before;
    }
  }
}
