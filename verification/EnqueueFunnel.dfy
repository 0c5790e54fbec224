/** The enqueue funnel over the queue: the dedupe decision asked about a snapshot of the table
    and applied to the table under one lock, with the insert's own check as backstop
    (agent/agent.py, `_dedupe_decide` and its callers). */
module EnqueueFunnel {
  import opened Wrappers
  import opened Remediation
  import opened RemediationPolicy
  import opened Floats
  import opened RemediationTable
  import opened RemediationRuns
  import opened Text
  import Dedupe

  // ---- open keys stay unique --------------------------------------------------------

  predicate OpenWithKey(rows: Table, id: nat, key: string) {
    Exists(rows, id) && !Terminal(RowOf(rows, id).status) && RowOf(rows, id).payload.dedupeKey == key
  }

  /** No two open rows share a non-empty key of their own. */
  ghost predicate KeysUnique(rows: Table) {
    forall a: nat, b: nat, key: string ::
      key != "" && OpenWithKey(rows, a, key) && OpenWithKey(rows, b, key) ==> a == b
  }

  /** The step takes a closed row out of its end state. */
  predicate Revives(policy: Policy, rows: Table, step: Step, id: nat) {
    && Exists(rows, id) && Terminal(RowOf(rows, id).status)
    && !Terminal(RowOf(Effect(policy, rows, step), id).status)
  }

  /** The step revives a row whose key an open row has taken since. */
  predicate RevivesTakenKey(policy: Policy, rows: Table, step: Step) {
    exists id: nat :: 1 <= id <= |rows| && Revives(policy, rows, step, id)
      && RowOf(rows, id).payload.dedupeKey != "" && KeyTaken(rows, RowOf(rows, id).payload.dedupeKey)
  }

  lemma KeyTakenMeans(rows: Table, key: string)
    ensures KeyTaken(rows, key) <==> exists id: nat :: OpenWithKey(rows, id, key)
  {
    if id: nat :| OpenWithKey(rows, id, key) {
      assert Exists(rows, id);
    }
    if KeyTaken(rows, key) {
      var id: nat :| 1 <= id <= |rows| && !Terminal(RowOf(rows, id).status) && RowOf(rows, id).payload.dedupeKey == key;
      assert OpenWithKey(rows, id, key);
    }
  }

  lemma KeyKept(policy: Policy, rows: Table, step: Step, id: nat)
    requires Exists(rows, id)
    ensures Exists(Effect(policy, rows, step), id)
    ensures RowOf(Effect(policy, rows, step), id).payload.dedupeKey == RowOf(rows, id).payload.dedupeKey
  {
    EffectAt(policy, rows, step, id);
  }

  /** Where a row with a key is open after a step: it was open, it was revived, or it is new. */
  lemma OpenAfter(s: State, step: Step, id: nat, key: string)
    requires Allowed(s, step) && key != ""
    requires OpenWithKey(Effect(s.policy, s.rows, step), id, key)
    ensures || OpenWithKey(s.rows, id, key)
            || (Revives(s.policy, s.rows, step, id) && RowOf(s.rows, id).payload.dedupeKey == key)
            || (id == |s.rows| + 1 && !KeyTaken(s.rows, key) && Appended(s.policy, s.rows, step).Some?)
  {
    EffectAt(s.policy, s.rows, step, id);
    if Exists(s.rows, id) {
      KeyKept(s.policy, s.rows, step, id);
    }
  }

  lemma AtMostOneRevived(policy: Policy, rows: Table, step: Step, a: nat, b: nat)
    requires Revives(policy, rows, step, a) && Revives(policy, rows, step, b)
    ensures a == b && Appended(policy, rows, step).None?
  {
    EffectAt(policy, rows, step, a);
    EffectAt(policy, rows, step, b);
  }

  /** The same two rows after a step that takes no taken key back. */
  lemma PairStaysUnique(s: State, step: Step, a: nat, b: nat, key: string)
    requires Allowed(s, step) && KeysUnique(s.rows) && !RevivesTakenKey(s.policy, s.rows, step) && key != ""
    requires OpenWithKey(Effect(s.policy, s.rows, step), a, key) && OpenWithKey(Effect(s.policy, s.rows, step), b, key)
    ensures a == b
  {
    OpenAfter(s, step, a, key);
    OpenAfter(s, step, b, key);
    KeyTakenMeans(s.rows, key);
    if Revives(s.policy, s.rows, step, a) && Revives(s.policy, s.rows, step, b) {
      AtMostOneRevived(s.policy, s.rows, step, a, b);
    } else if Revives(s.policy, s.rows, step, a) {
      AtMostOneRevived(s.policy, s.rows, step, a, a);
    } else if Revives(s.policy, s.rows, step, b) {
      AtMostOneRevived(s.policy, s.rows, step, b, b);
    }
  }

  lemma RevivalBreaks(s: State, step: Step)
    requires Allowed(s, step) && KeysUnique(s.rows) && RevivesTakenKey(s.policy, s.rows, step)
    ensures !KeysUnique(Effect(s.policy, s.rows, step))
  {
    var id: nat :| 1 <= id <= |s.rows| && Revives(s.policy, s.rows, step, id)
      && RowOf(s.rows, id).payload.dedupeKey != "" && KeyTaken(s.rows, RowOf(s.rows, id).payload.dedupeKey);
    var key := RowOf(s.rows, id).payload.dedupeKey;
    KeyTakenMeans(s.rows, key);
    var other: nat :| OpenWithKey(s.rows, other, key);
    KeyKept(s.policy, s.rows, step, id);
    KeyKept(s.policy, s.rows, step, other);
    EffectAt(s.policy, s.rows, step, id);
    EffectAt(s.policy, s.rows, step, other);
    var after := Effect(s.policy, s.rows, step);
    assert OpenWithKey(after, id, key) && OpenWithKey(after, other, key);
  }

  /** One step keeps the open keys unique exactly unless it revives a closed row whose key an
      open row has taken since. */
  lemma UniqueKeysExactly(s: State, step: Step)
    requires Allowed(s, step) && KeysUnique(s.rows)
    ensures KeysUnique(Effect(s.policy, s.rows, step)) <==> !RevivesTakenKey(s.policy, s.rows, step)
  {
    if RevivesTakenKey(s.policy, s.rows, step) {
      RevivalBreaks(s, step);
    } else {
      forall a: nat, b: nat, key: string
        | key != "" && OpenWithKey(Effect(s.policy, s.rows, step), a, key) && OpenWithKey(Effect(s.policy, s.rows, step), b, key)
        ensures a == b
      {
        PairStaysUnique(s, step, a, b, key);
      }
    }
  }

  /** No step of the run takes back a key that an open row has. */
  predicate NoTakenKeyRevived(policy: Policy, run: seq<Step>) {
    run == [] || (NoTakenKeyRevived(policy, run[..|run| - 1])
                  && !RevivesTakenKey(After(policy, run[..|run| - 1]).policy, After(policy, run[..|run| - 1]).rows, run[|run| - 1]))
  }

  /** The open keys are unique now, and have been at every step before. */
  ghost predicate AlwaysUnique(policy: Policy, run: seq<Step>) {
    run == [] || (AlwaysUnique(policy, run[..|run| - 1]) && KeysUnique(After(policy, run).rows))
  }

  /** Over any run, whatever the decisions were, the backstop keeps the open keys unique throughout
      if and only if no step takes back a key that an open row has. */
  lemma {:induction false} OpenKeysStayUnique(policy: Policy, run: seq<Step>)
    requires Disciplined(policy, run)
    ensures AlwaysUnique(policy, run) <==> NoTakenKeyRevived(policy, run)
    ensures AlwaysUnique(policy, run) ==> KeysUnique(After(policy, run).rows)
    decreases |run|
  {
    if run != [] {
      var before := run[..|run| - 1];
      OpenKeysStayUnique(policy, before);
      if AlwaysUnique(policy, before) {
        UniqueKeysExactly(After(policy, before), run[|run| - 1]);
      }
    }
  }

  /** The callers that can revive a closed row: the write of an Approve, a status written late, and
      the drainer or the reaper finishing with a row that was closed while they had it. */
  predicate Reviver(step: Step) {
    match step
    case ApproveWrites(_) => true
    case SetStatus(_, status, _) => !Terminal(status)
    case Persist(_) => true
    case Release(_) => true
    case DrainerFail(_) => true
    case ReaperFail(_) => true
    case _ => false
  }

  lemma RevivedExactly(s: State, step: Step, id: nat)
    requires Allowed(s, step) && Exists(s.rows, id) && Terminal(RowOf(s.rows, id).status)
    ensures Revives(s.policy, s.rows, step, id) <==> Targets(step, id) && Reviver(step)
  {
    EffectAt(s.policy, s.rows, step, id);
  }

  predicate MeetsClosed(rows: Table, step: Step) {
    Reviver(step) && exists id: nat :: 1 <= id <= |rows| && Targets(step, id) && Terminal(RowOf(rows, id).status)
  }

  /** None of those callers meets a row that has been closed. */
  predicate ClosedLeftAlone(policy: Policy, run: seq<Step>) {
    run == [] || (ClosedLeftAlone(policy, run[..|run| - 1])
                  && !MeetsClosed(After(policy, run[..|run| - 1]).rows, run[|run| - 1]))
  }

  /** So the open keys stay unique in every run in which no Approve, late status, drainer or reaper
      meets a closed row. */
  lemma {:induction false} UniqueWhileClosedLeftAlone(policy: Policy, run: seq<Step>)
    requires Disciplined(policy, run) && ClosedLeftAlone(policy, run)
    ensures NoTakenKeyRevived(policy, run) && KeysUnique(After(policy, run).rows)
    decreases |run|
  {
    if run != [] {
      var s, step := After(policy, run[..|run| - 1]), run[|run| - 1];
      UniqueWhileClosedLeftAlone(policy, run[..|run| - 1]);
      forall id: nat | 1 <= id <= |s.rows|
        ensures !Revives(s.policy, s.rows, step, id)
      {
        if Terminal(RowOf(s.rows, id).status) {
          RevivedExactly(s, step, id);
        }
      }
    }
    OpenKeysStayUnique(policy, run);
  }

  const KEYED := Payload("disk-full", [], "", [], [], "")
  const REPORT := Enqueue("data-fix", KEYED, "low", None, 5, "disk-full", None, 0)
  const REPORT_ROW := Row("data-fix", "low", None, NeedsHuman, 5, 0, KEYED, None, None, None, 0)
  const REJECTED_ROW := REPORT_ROW.(status := Rejected)
  const REPORTED_TWICE: seq<Step> := [REPORT, SetStatus(1, Rejected, None), REPORT]

  lemma ReportedTwice()
    ensures Disciplined(SHIPPED, REPORTED_TWICE)
    ensures After(SHIPPED, REPORTED_TWICE) == State(SHIPPED, [REJECTED_ROW, REPORT_ROW], {}, {}, multiset{}, {})
  {
    var reject := SetStatus(1, Rejected, None);
    RunOf([], REPORT);
    assert [] + [REPORT] == [REPORT];
    assert After(SHIPPED, [REPORT]) == State(SHIPPED, [REPORT_ROW], {}, {}, multiset{}, {});
    RunOf([REPORT], reject);
    OnlyRowAfter(After(SHIPPED, [REPORT]), REPORT_ROW, reject);
    RunOf([REPORT] + [reject], REPORT);
    assert !KeyTaken([REJECTED_ROW], "disk-full");
    assert REPORTED_TWICE == [REPORT] + [reject] + [REPORT];
  }

  /** It happens: a rejected row is approved after its problem came back under the same key. */
  lemma ApproveTakesKeyBack()
    ensures var run := REPORTED_TWICE + [ApproveReads(1)] + [ApproveWrites(1)];
            && Disciplined(SHIPPED, run)
            && OpenWithKey(After(SHIPPED, run).rows, 1, "disk-full")
            && OpenWithKey(After(SHIPPED, run).rows, 2, "disk-full")
  {
    var rows := [REJECTED_ROW, REPORT_ROW];
    ReportedTwice();
    RunOf(REPORTED_TWICE, ApproveReads(1));
    EffectOnOne(SHIPPED, rows, ApproveReads(1), 1);
    var read := REPORTED_TWICE + [ApproveReads(1)];
    assert After(SHIPPED, read) == State(SHIPPED, rows, {}, {}, multiset{1}, {});
    RunOf(read, ApproveWrites(1));
    EffectOnOne(SHIPPED, rows, ApproveWrites(1), 1);
  }

  /** It happens: a row that its Job has already resolved is queued again by a reaper that read
      the expired lease just before. */
  lemma ResolvedRowQueuedAgain()
    ensures var run := LEASED + [SelectStale(1801)] + [SetStatus(1, Resolved, None)] + [ReaperFail(1)];
            && Disciplined(SHIPPED, run)
            && Exists(After(SHIPPED, run).rows, 1)
            && RowOf(After(SHIPPED, run).rows, 1).status.Queued?
  {
    var read, resolve, fail := LEASED + [SelectStale(1801)], SetStatus(1, Resolved, None), ReaperFail(1);
    OneLeaseRead();
    RunOf(read, resolve);
    OnlyRowAfter(After(SHIPPED, read), HELD_ROW, resolve);
    var resolved := HELD_ROW.(status := Resolved);
    assert After(SHIPPED, read + [resolve]) == State(SHIPPED, [resolved], {}, {}, multiset{}, {1});
    RunOf(read + [resolve], fail);
    OnlyRowAfter(After(SHIPPED, read + [resolve]), resolved, fail);
  }

  // ---- the decision and the table ------------------------------------------------------

  /** What the funnel is asked about: id, status and payload of every row, newest first. */
  function Snapshot(rows: Table): seq<Dedupe.Row> {
    if rows == [] then []
    else
      var last := rows[|rows| - 1];
      [Dedupe.Row(|rows|, last.status, last.payload)] + Snapshot(rows[..|rows| - 1])
  }

  lemma {:induction false} SnapshotAt(rows: Table)
    ensures |Snapshot(rows)| == |rows|
    ensures forall i :: 0 <= i < |rows| ==>
              && Snapshot(rows)[i].id == |rows| - i
              && Snapshot(rows)[i].status == rows[|rows| - 1 - i].status
              && Snapshot(rows)[i].payload == rows[|rows| - 1 - i].payload
    decreases |rows|
  {
    if rows != [] {
      SnapshotAt(rows[..|rows| - 1]);
    }
  }

  lemma SnapshotOwns(rows: Table, key: string)
    ensures Dedupe.OwnedByOpenRow(Snapshot(rows), key) <==> KeyTaken(rows, key)
  {
    SnapshotAt(rows);
    if KeyTaken(rows, key) {
      var id: nat :| 1 <= id <= |rows| && !Terminal(RowOf(rows, id).status) && RowOf(rows, id).payload.dedupeKey == key;
      assert Snapshot(rows)[|rows| - id].payload.dedupeKey == key;
    }
    if Dedupe.OwnedByOpenRow(Snapshot(rows), key) {
      var snapshot := Snapshot(rows);
      var i :| 0 <= i < |snapshot| && !Terminal(snapshot[i].status) && snapshot[i].payload.dedupeKey == key;
      assert RowOf(rows, |rows| - i).payload.dedupeKey == key;
    }
  }

  /** The fields of the new row that the decision does not look at. */
  datatype Insert = Insert(cls: string, risk: string, confidence: Option<Floating>, priority: int,
                           prUrl: Option<string>, now: int)

  /** What the caller does to the table with a decision, under the lock. */
  function Act(policy: Policy, rows: Table, c: Dedupe.Candidate, d: Dedupe.Decision, row: Insert): Table {
    match d
    case New(key, _) =>
      Effect(policy, rows, Enqueue(row.cls, Dedupe.InsertedPayload(c, key), row.risk, row.confidence, row.priority,
                                   key, row.prUrl, row.now))
    case Fold(id, _, _, _, alias) => Effect(policy, rows, RecordAlias(id, alias))
    case Suppress(_, _) => rows
  }

  lemma NewKeyIsFree(reader: Dedupe.Reader, c: Dedupe.Candidate, rows: Table, notReady: set<string>)
    requires Dedupe.Decide(reader, c, Snapshot(rows), notReady).New?
    ensures var key := Dedupe.Decide(reader, c, Snapshot(rows), notReady).dedupeKey;
            key == "" || !KeyTaken(rows, key)
  {
    var snapshot := Snapshot(rows);
    var key := Dedupe.Decide(reader, c, snapshot, notReady).dedupeKey;
    if key != "" && KeyTaken(rows, key) {
      SnapshotOwns(rows, key);
      var i :| 0 <= i < |snapshot| && !Terminal(snapshot[i].status) && snapshot[i].payload.dedupeKey == key;
      Dedupe.OpenRowsHolds(snapshot, i);
      Dedupe.FirstWithKeyFinds(Dedupe.OpenRows(snapshot), key);
      Dedupe.DecideNewKey(reader, c, snapshot, notReady);
      Dedupe.FoldRepeatFinds(reader, c, Dedupe.WindowOf(Dedupe.OpenRows(snapshot)));
    }
  }

  lemma FallbackNewKeyIsFree(c: Dedupe.Candidate, rows: Table)
    requires Dedupe.Fallback(c, Some(Snapshot(rows))).New?
    ensures c.dedupeKey == "" || !KeyTaken(rows, c.dedupeKey)
  {
    var snapshot := Snapshot(rows);
    if c.dedupeKey != "" && KeyTaken(rows, c.dedupeKey) {
      SnapshotOwns(rows, c.dedupeKey);
      var i :| 0 <= i < |snapshot| && !Terminal(snapshot[i].status) && snapshot[i].payload.dedupeKey == c.dedupeKey;
      Dedupe.OpenRowsHolds(snapshot, i);
      Dedupe.FirstWithKeyFinds(Dedupe.OpenRows(snapshot), c.dedupeKey);
    }
  }

  lemma SnapshotOfAlias(policy: Policy, rows: Table, id: nat, alias: string)
    ensures Snapshot(Effect(policy, rows, RecordAlias(id, alias))) == Dedupe.AliasOn(Snapshot(rows), id, alias)
  {
    var after := Effect(policy, rows, RecordAlias(id, alias));
    SnapshotAt(rows);
    SnapshotAt(after);
    forall i | 0 <= i < |rows|
      ensures Snapshot(after)[i] == Dedupe.AliasOn(Snapshot(rows), id, alias)[i]
    {
      EffectAt(policy, rows, RecordAlias(id, alias), |rows| - i);
    }
  }

  lemma SnapshotOfNew(policy: Policy, rows: Table, row: Row)
    ensures Snapshot(rows + [row]) == [Dedupe.Row(|rows| + 1, row.status, row.payload)] + Snapshot(rows)
  {
    assert (rows + [row])[..|rows|] == rows;
  }

  /** The funnel refines the decision: acting on the service's answer, the backstop never
      fires, and the next snapshot is what the decision's own account of itself predicts; so
      what is proved about asking again holds of the table. */
  lemma FunnelRefinesDecision(policy: Policy, reader: Dedupe.Reader, c: Dedupe.Candidate, rows: Table,
                              notReady: set<string>, row: Insert)
    ensures var d := Dedupe.Decide(reader, c, Snapshot(rows), notReady);
            Snapshot(Act(policy, rows, c, d, row))
            == Dedupe.Applied(Snapshot(rows), c, d, |rows| + 1,
                              EntryStatus(policy, row.cls, row.risk, row.confidence, PrOf(row.prUrl)))
  {
    var d := Dedupe.Decide(reader, c, Snapshot(rows), notReady);
    match d
    case New(key, _) =>
      NewKeyIsFree(reader, c, rows, notReady);
      SnapshotOfNew(policy, rows, NewRow(policy, row.cls, row.risk, row.confidence, row.priority,
                                         Dedupe.InsertedPayload(c, key), row.prUrl, row.now));
    case Fold(id, _, _, _, alias) =>
      SnapshotOfAlias(policy, rows, id, alias);
    case Suppress(_, _) =>
  }

  /** Once a recognisable candidate has been through the funnel, the service asked again about
      the table as it now is finds it, on the same row. */
  lemma FunnelRemembers(policy: Policy, reader: Dedupe.Reader, c: Dedupe.Candidate, rows: Table,
                        notReady: set<string>, row: Insert)
    requires Dedupe.Recognisable(reader, c, notReady)
    ensures var d := Dedupe.Decide(reader, c, Snapshot(rows), notReady);
            var again := Dedupe.Decide(reader, c, Snapshot(Act(policy, rows, c, d, row)), notReady);
            !again.New? && Dedupe.RowNamed(again, |rows| + 1) == Dedupe.RowNamed(d, |rows| + 1)
  {
    FunnelRefinesDecision(policy, reader, c, rows, notReady, row);
    Dedupe.AskingAgain(reader, c, Snapshot(rows), notReady, |rows| + 1,
                       EntryStatus(policy, row.cls, row.risk, row.confidence, PrOf(row.prUrl)));
  }
}
