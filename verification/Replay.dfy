/** Writing offline and replaying later (agent/knowledge_base.py, `ResilientKnowledgeBase`).

    A write that cannot go to the database, and every write to an investigation that was
    started offline, becomes an event in the outbox; `_replay_event` applies it later. The
    claim is that an investigation written this way ends up as if it had been written online.
  */
module Replay {
  import opened Wrappers
  import opened LocalBuffer
  import opened InvestigationStore

  datatype Payload =
    | StartInvestigation(trigger: string, alertId: Option<string>, localId: int)
    | InvestigationEvent(investigationId: int, rec: Record)
    | UpdateInvestigation(investigationId: int, update: Update)
    | RecordDrift(drift: string)
    | UpdateBaseline(service: string, expected: string)

  type Logged = BufferedEvent<Payload>

  /** What replay reads and writes: the database and the map from local to database ids. */
  datatype Store = Store(db: Database, localToDb: map<int, int>)

  /** `_resolve_investigation_id` */
  function Resolve(localToDb: map<int, int>, id: int): Option<int> {
    if id >= 0 then Some(id) else if id in localToDb then Some(localToDb[id]) else None
  }

  /** Whether an update finishes its investigation, as `_replayed_completed_at` decides it. */
  predicate Terminal(normalize: Normalize, u: Update) {
    u.outcome.Some? && u.outcome.value != "" && normalize(u.outcome.value) != IN_PROGRESS
  }

  /** The update replay makes of a buffered one: a missing completion time is filled in from the
      time of buffering when the outcome is terminal. */
  function AsReplayed(normalize: Normalize, u: Update, at: int): Update {
    if u.completedAt.None? && Terminal(normalize, u) then u.(completedAt := Some(at)) else u
  }

  /** `_replay_event` */
  function AfterReplay(normalize: Normalize, s: Store, e: Logged): Store {
    match e.data
    case StartInvestigation(trigger, alertId, localId) =>
      Store(AfterStart(s.db, trigger, alertId), s.localToDb[localId := s.db.nextId])
    case InvestigationEvent(id, rec) =>
      var target := Resolve(s.localToDb, id);
      if target.Some? && target.value > 0 then s.(db := AfterRecord(s.db, target.value, rec)) else s
    case UpdateInvestigation(id, u) =>
      var target := Resolve(s.localToDb, id);
      if target.Some? && target.value > 0
      then s.(db := AfterUpdate(normalize, s.db, target.value, AsReplayed(normalize, u, e.timestamp)))
      else s
    case RecordDrift(drift) => s.(db := s.db.(drifts := s.db.drifts + [drift]))
    case UpdateBaseline(service, expected) =>
      s.(db := s.db.(baselines := s.db.baselines[service := expected]))
  }

  /** A pass in which no replay fails. */
  function ReplayAll(normalize: Normalize, s: Store, log: seq<Logged>): Store {
    if log == [] then s
    else AfterReplay(normalize, ReplayAll(normalize, s, log[..|log| - 1]), log[|log| - 1])
  }

  /** What replaying one event does, and all that it does: a start makes the next row and maps its
      local id to it; a record or an update goes to the row its id stands for, or nowhere if that
      is no row's; an update of an existing row is one direct update, stamped with the time of
      buffering if it finishes the investigation without a time of its own; drift and baselines
      are written as they were buffered. */
  lemma ReplayMeans(normalize: Normalize, s: Store, e: Logged)
    ensures var t := AfterReplay(normalize, s, e);
            match e.data
            case StartInvestigation(trigger, alertId, local) =>
              && t.db == Online(normalize, s.db, trigger, alertId, [])
              && t.localToDb.Keys == s.localToDb.Keys + {local} && t.localToDb[local] == s.db.nextId
              && forall l :: l in s.localToDb && l != local ==> t.localToDb[l] == s.localToDb[l]
            case InvestigationEvent(id, rec) =>
              && t.localToDb == s.localToDb && t.db.rows == s.db.rows && t.db.nextId == s.db.nextId
              && t.db.drifts == s.db.drifts && t.db.baselines == s.db.baselines
              && (if id > 0 then t.db.events == s.db.events + [(id, rec)]
                  else if id < 0 && id in s.localToDb && s.localToDb[id] > 0 then
                    t.db.events == s.db.events + [(s.localToDb[id], rec)]
                  else t.db.events == s.db.events)
            case UpdateInvestigation(id, u) =>
              && t.localToDb == s.localToDb && t.db.rows.Keys == s.db.rows.Keys && t.db.nextId == s.db.nextId
              && t.db.events == s.db.events && t.db.drifts == s.db.drifts && t.db.baselines == s.db.baselines
              && forall n :: n in s.db.rows ==>
                   if n > 0 && (n == id || (id < 0 && id in s.localToDb && n == s.localToDb[id]))
                   then UpdatedFrom(normalize, t.db.rows[n], s.db.rows[n], u, e.timestamp)
                   else t.db.rows[n] == s.db.rows[n]
            case RecordDrift(drift) =>
              && t.localToDb == s.localToDb && t.db.rows == s.db.rows && t.db.nextId == s.db.nextId
              && t.db.events == s.db.events && t.db.baselines == s.db.baselines
              && t.db.drifts == s.db.drifts + [drift]
            case UpdateBaseline(service, expected) =>
              && t.localToDb == s.localToDb && t.db.rows == s.db.rows && t.db.nextId == s.db.nextId
              && t.db.events == s.db.events && t.db.drifts == s.db.drifts
              && t.db.baselines.Keys == s.db.baselines.Keys + {service} && t.db.baselines[service] == expected
              && forall n :: n in s.db.baselines && n != service ==> t.db.baselines[n] == s.db.baselines[n]
  {
  }

  /** `row` is `was` after the update, buffered at `at`: what it carries, and what it leaves alone. */
  ghost predicate UpdatedFrom(normalize: Normalize, row: Row, was: Row, u: Update, at: int) {
    && row.trigger == was.trigger && row.alertId == was.alertId
    && (u.findings.Some? ==> row.findings == u.findings.value) && (u.findings.None? ==> row.findings == was.findings)
    && (u.outcome.Some? ==> row.outcome == normalize(u.outcome.value)) && (u.outcome.None? ==> row.outcome == was.outcome)
    && (u.duration.Some? ==> row.duration == u.duration) && (u.duration.None? ==> row.duration == was.duration)
    && (u.toolCalls.Some? ==> row.toolCalls == u.toolCalls.value) && (u.toolCalls.None? ==> row.toolCalls == was.toolCalls)
    && (u.completedAt.Some? ==> row.completedAt == u.completedAt)
    && (u.completedAt.None? ==>
          row.completedAt == if u.outcome.Some? && u.outcome.value != "" && normalize(u.outcome.value) != "in_progress"
                             then Some(at) else was.completedAt)
  }

  // ---- one investigation's share of the log -------------------------------------

  function OpOf(e: Logged, id: int): seq<Op> {
    match e.data
    case InvestigationEvent(i, rec) => if i == id then [RecordOp(rec)] else []
    case UpdateInvestigation(i, u) => if i == id then [UpdateOp(u, e.timestamp)] else []
    case _ => []
  }

  /** The writes to investigation `id` in a log, in order. */
  function OpsOf(log: seq<Logged>, id: int): seq<Op> {
    if log == [] then [] else OpsOf(log[..|log| - 1], id) + OpOf(log[|log| - 1], id)
  }

  function Stamped(normalize: Normalize, op: Op): Op {
    match op
    case RecordOp(_) => op
    case UpdateOp(u, at) => UpdateOp(AsReplayed(normalize, u, at), at)
  }

  function StampedAll(normalize: Normalize, ops: seq<Op>): seq<Op> {
    seq(|ops|, i requires 0 <= i < |ops| => Stamped(normalize, ops[i]))
  }

  predicate NeverStarts(log: seq<Logged>, id: int) {
    forall i :: 0 <= i < |log| && log[i].data.StartInvestigation? ==> log[i].data.localId != id
  }

  /** Every positive id in the log was handed out by the database before `nextId`. */
  predicate PositiveIdsBelow(log: seq<Logged>, nextId: int) {
    forall i :: 0 <= i < |log| ==>
      (log[i].data.InvestigationEvent? || log[i].data.UpdateInvestigation?) ==> log[i].data.investigationId < nextId
  }

  predicate WellFormed(s: Store) {
    && s.db.nextId > 0
    && (forall l :: l in s.localToDb ==> s.localToDb[l] < s.db.nextId)
    && NoStrayEvents(s.db)
  }

  /** Local id `local` stands for row `row`, and no other local id does. */
  predicate Tracks(s: Store, local: int, row: int) {
    && local in s.localToDb && s.localToDb[local] == row
    && row in s.db.rows && 0 < row < s.db.nextId
    && forall l :: l in s.localToDb && l != local ==> s.localToDb[l] != row
  }

  lemma ReplayKeepsWellFormed(normalize: Normalize, s: Store, e: Logged)
    requires WellFormed(s) && PositiveIdsBelow([e], s.db.nextId)
    ensures WellFormed(AfterReplay(normalize, s, e))
    ensures s.db.nextId <= AfterReplay(normalize, s, e).db.nextId
  {
    assert [e][0] == e;
  }

  lemma {:induction false} ReplayAllKeepsWellFormed(normalize: Normalize, s: Store, log: seq<Logged>)
    requires WellFormed(s) && PositiveIdsBelow(log, s.db.nextId)
    ensures WellFormed(ReplayAll(normalize, s, log))
    ensures s.db.nextId <= ReplayAll(normalize, s, log).db.nextId
    decreases |log|
  {
    if log != [] {
      ReplayAllKeepsWellFormed(normalize, s, log[..|log| - 1]);
      assert log[|log| - 1] == [log[|log| - 1]][0];
      ReplayKeepsWellFormed(normalize, ReplayAll(normalize, s, log[..|log| - 1]), log[|log| - 1]);
    }
  }

  /** One replayed event changes a tracked row exactly as that row's own write says, and every
      other event leaves it alone. */
  lemma ReplayTracks(normalize: Normalize, s: Store, e: Logged, local: int, row: int)
    requires WellFormed(s) && Tracks(s, local, row) && local < 0
    requires NeverStarts([e], local)
    requires (e.data.InvestigationEvent? || e.data.UpdateInvestigation?) ==> e.data.investigationId != row
    ensures Tracks(AfterReplay(normalize, s, e), local, row)
    ensures ViewOf(AfterReplay(normalize, s, e).db, row)
         == ViewAfter(normalize, ViewOf(s.db, row), StampedAll(normalize, OpOf(e, local)))
  {
    assert [e][0] == e;
    var v := ViewOf(s.db, row);
    match e.data
    case InvestigationEvent(id, rec) =>
      var target := Resolve(s.localToDb, id);
      if target.Some? && target.value > 0 {
        EventsOfSnoc(s.db.events, (target.value, rec), row);
      }
      if id == local {
        SingleOp(normalize, v, RecordOp(rec));
      }
    case UpdateInvestigation(id, u) =>
      if id == local {
        SingleOp(normalize, v, UpdateOp(u, e.timestamp));
      }
    case _ =>
  }

  lemma SingleOp(normalize: Normalize, v: View, op: Op)
    ensures ViewAfter(normalize, v, StampedAll(normalize, [op])) == ViewAfterOp(normalize, v, Stamped(normalize, op))
  {
    var ops := StampedAll(normalize, [op]);
    assert ops == [Stamped(normalize, op)];
    assert ops[..0] == [];
  }

  lemma StampedConcat(normalize: Normalize, a: seq<Op>, b: seq<Op>)
    ensures StampedAll(normalize, a + b) == StampedAll(normalize, a) + StampedAll(normalize, b)
  {
  }

  /** A whole log, for a local id it does not start again. */
  lemma {:induction false} ReplayAllTracks(normalize: Normalize, s: Store, log: seq<Logged>, local: int, row: int)
    requires WellFormed(s) && Tracks(s, local, row) && local < 0
    requires NeverStarts(log, local) && PositiveIdsBelow(log, row)
    ensures var t := ReplayAll(normalize, s, log);
            && WellFormed(t) && Tracks(t, local, row)
            && ViewOf(t.db, row) == ViewAfter(normalize, ViewOf(s.db, row), StampedAll(normalize, OpsOf(log, local)))
    decreases |log|
  {
    if log != [] {
      var before, last := log[..|log| - 1], log[|log| - 1];
      ReplayAllTracks(normalize, s, before, local, row);
      ReplayAllKeepsWellFormed(normalize, s, log);
      var mid := ReplayAll(normalize, s, before);
      assert [last][0] == last == log[|log| - 1];
      ReplayTracks(normalize, mid, last, local, row);
      StampedConcat(normalize, OpsOf(before, local), OpOf(last, local));
      ViewAfterConcat(normalize, ViewOf(s.db, row), StampedAll(normalize, OpsOf(before, local)),
                      StampedAll(normalize, OpOf(last, local)));
    }
  }

  lemma {:induction false} ReplayAllConcat(normalize: Normalize, s: Store, a: seq<Logged>, b: seq<Logged>)
    ensures ReplayAll(normalize, s, a + b) == ReplayAll(normalize, ReplayAll(normalize, s, a), b)
    decreases |b|
  {
    if b == [] {
      assert a + b == a;
    } else {
      assert (a + b)[..|a + b| - 1] == a + b[..|b| - 1];
      ReplayAllConcat(normalize, s, a, b[..|b| - 1]);
    }
  }

  lemma StartTracks(normalize: Normalize, s: Store, e: Logged)
    requires WellFormed(s) && e.data.StartInvestigation?
    ensures var t := AfterReplay(normalize, s, e);
            && WellFormed(t) && Tracks(t, e.data.localId, s.db.nextId)
            && ViewOf(t.db, s.db.nextId) == View(NewRow(e.data.trigger, e.data.alertId), [])
  {
    NoEventsYet(s.db.events, s.db.nextId);
  }

  /** Where a pass puts the investigation whose start is event `k` of the log. */
  function RowOf(normalize: Normalize, s: Store, log: seq<Logged>, k: nat): int
    requires k < |log|
  {
    ReplayAll(normalize, s, log[..k]).db.nextId
  }

  predicate StartsAt(log: seq<Logged>, k: nat, local: int) {
    local < 0 && k < |log| && Starts(log[k], local)
  }

  predicate Starts(e: Logged, local: int) {
    e.data.StartInvestigation? && e.data.localId == local
  }

  /** A log up to the next start under `local`: the process that wrote what follows has been
      restarted, and means another investigation by that id. */
  function UntilStart(log: seq<Logged>, local: int): seq<Logged> {
    if log == [] || Starts(log[0], local) then [] else [log[0]] + UntilStart(log[1..], local)
  }

  lemma {:induction false} UntilStartSplits(log: seq<Logged>, local: int)
    ensures |UntilStart(log, local)| <= |log| && log[..|UntilStart(log, local)|] == UntilStart(log, local)
    ensures NeverStarts(UntilStart(log, local), local)
    ensures |UntilStart(log, local)| < |log| ==> Starts(log[|UntilStart(log, local)|], local)
    ensures NeverStarts(log, local) ==> UntilStart(log, local) == log
  {
    if log != [] && !Starts(log[0], local) {
      UntilStartSplits(log[1..], local);
    }
  }

  /** No local id stands for the row, which is there and not new. */
  predicate Untouched(s: Store, row: int) {
    && row in s.db.rows && 0 < row < s.db.nextId
    && forall l :: l in s.localToDb ==> s.localToDb[l] != row
  }

  lemma ReplayLeaves(normalize: Normalize, s: Store, e: Logged, row: int)
    requires WellFormed(s) && Untouched(s, row)
    requires (e.data.InvestigationEvent? || e.data.UpdateInvestigation?) ==> e.data.investigationId != row
    ensures Untouched(AfterReplay(normalize, s, e), row)
    ensures ViewOf(AfterReplay(normalize, s, e).db, row) == ViewOf(s.db, row)
  {
    match e.data
    case InvestigationEvent(id, rec) =>
      var target := Resolve(s.localToDb, id);
      if target.Some? && target.value > 0 {
        EventsOfSnoc(s.db.events, (target.value, rec), row);
      }
    case _ =>
  }

  lemma {:induction false} ReplayAllLeaves(normalize: Normalize, s: Store, log: seq<Logged>, row: int)
    requires WellFormed(s) && Untouched(s, row) && PositiveIdsBelow(log, row)
    ensures Untouched(ReplayAll(normalize, s, log), row)
    ensures ViewOf(ReplayAll(normalize, s, log).db, row) == ViewOf(s.db, row)
    decreases |log|
  {
    if log != [] {
      var before, last := log[..|log| - 1], log[|log| - 1];
      ReplayAllLeaves(normalize, s, before, row);
      ReplayAllKeepsWellFormed(normalize, s, before);
      ReplayLeaves(normalize, ReplayAll(normalize, s, before), last, row);
    }
  }

  /** A later start under the same local id takes it over: its row is a new one, and the earlier
      row is left as it is. */
  lemma StartTakesOver(normalize: Normalize, s: Store, e: Logged, local: int, row: int)
    requires WellFormed(s) && Tracks(s, local, row) && Starts(e, local)
    ensures Untouched(AfterReplay(normalize, s, e), row)
    ensures ViewOf(AfterReplay(normalize, s, e).db, row) == ViewOf(s.db, row)
  {
  }

  lemma ReplayThrough(normalize: Normalize, s: Store, own: seq<Logged>, e: Logged, rest: seq<Logged>)
    ensures ReplayAll(normalize, s, own + ([e] + rest))
         == ReplayAll(normalize, AfterReplay(normalize, ReplayAll(normalize, s, own), e), rest)
  {
    ReplayAllConcat(normalize, s, own, [e] + rest);
    ReplayAllConcat(normalize, ReplayAll(normalize, s, own), [e], rest);
    assert [e][..0] == [];
  }

  lemma TakenOver(normalize: Normalize, s: Store, e: Logged, rest: seq<Logged>, local: int, row: int)
    requires WellFormed(s) && Tracks(s, local, row) && Starts(e, local) && PositiveIdsBelow(rest, row)
    ensures var t := ReplayAll(normalize, AfterReplay(normalize, s, e), rest);
            row in t.db.rows && ViewOf(t.db, row) == ViewOf(s.db, row)
  {
    StartTakesOver(normalize, s, e, local, row);
    ReplayKeepsWellFormed(normalize, s, e);
    ReplayAllLeaves(normalize, AfterReplay(normalize, s, e), rest, row);
  }

  lemma OwnThenTakenOver(normalize: Normalize, s: Store, own: seq<Logged>, e: Logged, rest: seq<Logged>, local: int, row: int)
    requires WellFormed(s) && Tracks(s, local, row) && local < 0
    requires NeverStarts(own, local) && Starts(e, local) && PositiveIdsBelow(own, row) && PositiveIdsBelow(rest, row)
    ensures var t := ReplayAll(normalize, s, own + ([e] + rest));
            && row in t.db.rows
            && ViewOf(t.db, row) == ViewAfter(normalize, ViewOf(s.db, row), StampedAll(normalize, OpsOf(own, local)))
  {
    ReplayAllTracks(normalize, s, own, local, row);
    ReplayThrough(normalize, s, own, e, rest);
    TakenOver(normalize, ReplayAll(normalize, s, own), e, rest, local, row);
  }

  lemma SplitAtStart(log: seq<Logged>, local: int, row: int) returns (own: seq<Logged>, e: Logged, rest: seq<Logged>)
    requires !NeverStarts(log, local) && PositiveIdsBelow(log, row)
    ensures own == UntilStart(log, local) && log == own + ([e] + rest)
    ensures NeverStarts(own, local) && Starts(e, local) && PositiveIdsBelow(own, row) && PositiveIdsBelow(rest, row)
  {
    UntilStartSplits(log, local);
    own := UntilStart(log, local);
    assert log[..|log|] == log;
    assert |own| < |log|;
    e, rest := log[|own|], log[|own| + 1..];
    assert forall k :: 0 <= k < |own| ==> own[k] == log[k];
    assert forall k :: 0 <= k < |rest| ==> rest[k] == log[|own| + 1 + k];
  }

  /** A whole log, for a row whose local id it may start again. */
  lemma ReplayAllUntilStart(normalize: Normalize, s: Store, log: seq<Logged>, local: int, row: int)
    requires WellFormed(s) && Tracks(s, local, row) && local < 0 && PositiveIdsBelow(log, row)
    ensures row in ReplayAll(normalize, s, log).db.rows
    ensures NeverStarts(log, local) ==> Tracks(ReplayAll(normalize, s, log), local, row)
    ensures ViewOf(ReplayAll(normalize, s, log).db, row)
         == ViewAfter(normalize, ViewOf(s.db, row), StampedAll(normalize, OpsOf(UntilStart(log, local), local)))
  {
    if NeverStarts(log, local) {
      UntilStartSplits(log, local);
      ReplayAllTracks(normalize, s, log, local, row);
    } else {
      var own, e, rest := SplitAtStart(log, local, row);
      OwnThenTakenOver(normalize, s, own, e, rest, local, row);
    }
  }

  /** A log that is replayed through its event `k`, a start, and then on. */
  lemma ReplaySplit(normalize: Normalize, s: Store, log: seq<Logged>, k: nat, before: Store)
    requires k < |log| && before == ReplayAll(normalize, s, log[..k])
    ensures ReplayAll(normalize, s, log) == ReplayAll(normalize, AfterReplay(normalize, before, log[k]), log[k + 1..])
  {
    assert log[..k + 1][..k] == log[..k];
    assert ReplayAll(normalize, s, log[..k + 1]) == AfterReplay(normalize, before, log[k]);
    assert log == log[..k + 1] + log[k + 1..];
    ReplayAllConcat(normalize, s, log[..k + 1], log[k + 1..]);
  }

  /** The replayed half of `ReplayedAsIfOnline`, for the log `rest` after a start. */
  lemma ReplayedFromStart(normalize: Normalize, before: Store, e: Logged, rest: seq<Logged>, local: int, ops: seq<Op>)
    requires WellFormed(before) && local < 0 && Starts(e, local) && PositiveIdsBelow(rest, before.db.nextId)
    requires ops == StampedAll(normalize, OpsOf(UntilStart(rest, local), local))
    ensures var t := ReplayAll(normalize, AfterReplay(normalize, before, e), rest);
            && before.db.nextId in t.db.rows
            && (NeverStarts(rest, local) ==> Tracks(t, local, before.db.nextId))
            && ViewOf(t.db, before.db.nextId)
               == ViewAfter(normalize, View(NewRow(e.data.trigger, e.data.alertId), []), ops)
  {
    StartTracks(normalize, before, e);
    ReplayAllUntilStart(normalize, AfterReplay(normalize, before, e), rest, local, before.db.nextId);
  }

  /** Offline refines online, up to completion stamps. For an investigation started offline,
      whatever else the log holds before, between and after its writes, a pass in which no
      replay fails leaves the same row and the same events in the same order as writing them
      directly to any database `online`, each update taken as replay stamps it. Its writes are
      those under its local id up to the next start, by a restarted process, under that id. */
  lemma ReplayedAsIfOnline(normalize: Normalize, s: Store, log: seq<Logged>, k: nat, local: int, online: Database)
    requires WellFormed(s) && StartsAt(log, k, local) && PositiveIdsBelow(log, s.db.nextId)
    requires online.nextId > 0 && NoStrayEvents(online)
    ensures var t := ReplayAll(normalize, s, log);
            var row := RowOf(normalize, s, log, k);
            var direct := Online(normalize, online, log[k].data.trigger, log[k].data.alertId,
                                 StampedAll(normalize, OpsOf(UntilStart(log[k + 1..], local), local)));
            && row in t.db.rows && row >= s.db.nextId
            && (NeverStarts(log[k + 1..], local) ==> Tracks(t, local, row))
            && online.nextId in direct.rows
            && ViewOf(t.db, row) == ViewOf(direct, online.nextId)
  {
    var before := ReplayAll(normalize, s, log[..k]);
    var ops := StampedAll(normalize, OpsOf(UntilStart(log[k + 1..], local), local));
    ReplayAllKeepsWellFormed(normalize, s, log[..k]);
    ReplaySplit(normalize, s, log, k, before);
    ReplayedFromStart(normalize, before, log[k], log[k + 1..], local, ops);
    NoEventsYet(online.events, online.nextId);
    DirectView(normalize, AfterStart(online, log[k].data.trigger, log[k].data.alertId), online.nextId, ops);
  }

  /** Replaying an update is the same as making it, on every row and at every time, exactly when
      it carries a completion time or does not finish its investigation. */
  lemma ReplayedUpdateAgreesExactly(normalize: Normalize, u: Update)
    ensures (forall row, at :: Updated(normalize, row, AsReplayed(normalize, u, at)) == Updated(normalize, row, u))
       <==> (u.completedAt.Some? || !Terminal(normalize, u))
  {
    if u.completedAt.None? && Terminal(normalize, u) {
      var row := NewRow("", None);
      assert Updated(normalize, row, AsReplayed(normalize, u, 0)).completedAt == Some(0);
      assert Updated(normalize, row, u).completedAt == None;
    }
  }

  predicate CarriesItsStamp(normalize: Normalize, op: Op) {
    op.UpdateOp? ==> op.update.completedAt.Some? || !Terminal(normalize, op.update)
  }

  /** Everything but the completion time. */
  function Unstamped(v: View): View {
    v.(row := v.row.(completedAt := None))
  }

  lemma {:induction false} StampsChangeNothingElse(normalize: Normalize, v: View, w: View, ops: seq<Op>)
    requires Unstamped(v) == Unstamped(w)
    ensures Unstamped(ViewAfter(normalize, v, StampedAll(normalize, ops))) == Unstamped(ViewAfter(normalize, w, ops))
    decreases |ops|
  {
    if ops != [] {
      StampsChangeNothingElse(normalize, v, w, ops[..|ops| - 1]);
      assert StampedAll(normalize, ops)[..|ops| - 1] == StampedAll(normalize, ops[..|ops| - 1]);
    }
  }

  /** Offline refines online. The replayed investigation agrees with the one written directly
      in everything but its completion time, always; and in that too when every update carries
      its completion time or does not finish the investigation. */
  lemma OfflineRefinesOnline(normalize: Normalize, s: Store, log: seq<Logged>, k: nat, local: int, online: Database)
    requires WellFormed(s) && StartsAt(log, k, local) && PositiveIdsBelow(log, s.db.nextId)
    requires online.nextId > 0 && NoStrayEvents(online)
    ensures var t := ReplayAll(normalize, s, log);
            var row := RowOf(normalize, s, log, k);
            var ops := OpsOf(UntilStart(log[k + 1..], local), local);
            var direct := Online(normalize, online, log[k].data.trigger, log[k].data.alertId, ops);
            && row in t.db.rows && online.nextId in direct.rows
            && (NeverStarts(log[k + 1..], local) ==> Resolve(t.localToDb, local) == Some(row))
            && Unstamped(ViewOf(t.db, row)) == Unstamped(ViewOf(direct, online.nextId))
            && ((forall i :: 0 <= i < |ops| ==> CarriesItsStamp(normalize, ops[i]))
                ==> ViewOf(t.db, row) == ViewOf(direct, online.nextId))
  {
    var ops := OpsOf(UntilStart(log[k + 1..], local), local);
    var start := AfterStart(online, log[k].data.trigger, log[k].data.alertId);
    ReplayedAsIfOnline(normalize, s, log, k, local, online);
    DirectView(normalize, start, online.nextId, ops);
    DirectView(normalize, start, online.nextId, StampedAll(normalize, ops));
    StampsChangeNothingElse(normalize, ViewOf(start, online.nextId), ViewOf(start, online.nextId), ops);
    if forall i :: 0 <= i < |ops| ==> CarriesItsStamp(normalize, ops[i]) {
      assert StampedAll(normalize, ops) == ops;
    }
  }

  /** Two starts in a log get two rows, whatever their local ids: the later one a later row. */
  lemma DistinctStartsDistinctRows(normalize: Normalize, s: Store, log: seq<Logged>, j: nat, k: nat)
    requires WellFormed(s) && PositiveIdsBelow(log, s.db.nextId)
    requires j < k < |log| && log[j].data.StartInvestigation? && log[k].data.StartInvestigation?
    ensures RowOf(normalize, s, log, j) < RowOf(normalize, s, log, k)
  {
    var mid := ReplayAll(normalize, s, log[..j + 1]);
    var between := log[j + 1..k];
    ReplayAllKeepsWellFormed(normalize, s, log[..j + 1]);
    assert log[..j + 1][..j] == log[..j];
    assert mid.db.nextId == RowOf(normalize, s, log, j) + 1;
    assert log[..k] == log[..j + 1] + between;
    ReplayAllConcat(normalize, s, log[..j + 1], between);
    ReplayAllKeepsWellFormed(normalize, mid, between);
  }

  /** A later pass carries on where an earlier one stopped: writes still made under the local
      id reach the same row. */
  lemma LaterPassContinues(normalize: Normalize, s: Store, log: seq<Logged>, local: int, row: int)
    requires WellFormed(s) && Tracks(s, local, row) && local < 0
    requires NeverStarts(log, local) && PositiveIdsBelow(log, row)
    ensures var t := ReplayAll(normalize, s, log);
            var direct := Direct(normalize, s.db, row, StampedAll(normalize, OpsOf(log, local)));
            && Tracks(t, local, row) && row in direct.rows
            && ViewOf(t.db, row) == ViewOf(direct, row)
  {
    ReplayAllTracks(normalize, s, log, local, row);
    DirectView(normalize, s.db, row, StampedAll(normalize, OpsOf(log, local)));
  }

  // ---- what else a log writes ---------------------------------------------------------

  function DriftsIn(log: seq<Logged>): seq<string> {
    if log == [] then []
    else DriftsIn(log[..|log| - 1]) + (if log[|log| - 1].data.RecordDrift? then [log[|log| - 1].data.drift] else [])
  }

  /** The last baseline that the log has for a service. */
  function BaselineIn(log: seq<Logged>, service: string): Option<string> {
    if log == [] then None
    else
      var last := log[|log| - 1].data;
      if last.UpdateBaseline? && last.service == service then Some(last.expected)
      else BaselineIn(log[..|log| - 1], service)
  }

  function StartsIn(log: seq<Logged>): nat {
    if log == [] then 0
    else StartsIn(log[..|log| - 1]) + (if log[|log| - 1].data.StartInvestigation? then 1 else 0)
  }

  /** The rest of a replayed log: every drift in order, the last baseline of each service, and one
      new row for each start. */
  lemma {:induction false} ReplayAllElse(normalize: Normalize, s: Store, log: seq<Logged>, service: string)
    ensures var t := ReplayAll(normalize, s, log);
            && t.db.drifts == s.db.drifts + DriftsIn(log)
            && t.db.nextId == s.db.nextId + StartsIn(log)
            && (match BaselineIn(log, service)
                case Some(expected) => service in t.db.baselines && t.db.baselines[service] == expected
                case None =>
                  && (service in t.db.baselines <==> service in s.db.baselines)
                  && (service in s.db.baselines ==> t.db.baselines[service] == s.db.baselines[service]))
    decreases |log|
  {
    if log == [] {
      assert s.db.drifts + DriftsIn(log) == s.db.drifts;
    } else {
      ReplayAllElse(normalize, s, log[..|log| - 1], service);
      ReplayMeans(normalize, ReplayAll(normalize, s, log[..|log| - 1]), log[|log| - 1]);
    }
  }

  // ---- restarts between passes -------------------------------------------------------

  /** What the process does to an event of the log, or to itself: an event is replayed, or it
      raises and is skipped; a restart forgets which local id is which row. */
  datatype Happening = Replayed(e: Logged) | Skipped(e: Logged) | Restarted

  function AfterHappening(normalize: Normalize, s: Store, h: Happening): Store {
    match h
    case Replayed(e) => AfterReplay(normalize, s, e)
    case Skipped(_) => s
    case Restarted => s.(localToDb := map[])
  }

  function Timeline(normalize: Normalize, s: Store, hs: seq<Happening>): Store {
    if hs == [] then s
    else AfterHappening(normalize, Timeline(normalize, s, hs[..|hs| - 1]), hs[|hs| - 1])
  }

  /** The last start under `local` that was replayed since the last restart. */
  function MappedBy(hs: seq<Happening>, local: int): Option<nat> {
    if hs == [] || hs[|hs| - 1].Restarted? then None
    else if hs[|hs| - 1].Replayed? && Starts(hs[|hs| - 1].e, local) then Some(|hs| - 1)
    else MappedBy(hs[..|hs| - 1], local)
  }

  /** The start that a write under `local`, coming next in the log, belongs to: the last under
      that id, replayed or not, whatever restarts there have been. */
  function MeantBy(hs: seq<Happening>, local: int): Option<nat> {
    if hs == [] then None
    else if !hs[|hs| - 1].Restarted? && Starts(hs[|hs| - 1].e, local) then Some(|hs| - 1)
    else MeantBy(hs[..|hs| - 1], local)
  }

  /** The row that the start at `k` makes, if it is replayed. */
  function RowAt(normalize: Normalize, s: Store, hs: seq<Happening>, k: nat): int
    requires k < |hs|
  {
    Timeline(normalize, s, hs[..k]).db.nextId
  }

  lemma {:induction false} MappedExactly(normalize: Normalize, s: Store, hs: seq<Happening>, local: int)
    requires s.localToDb == map[] && local < 0
    ensures var t := Timeline(normalize, s, hs);
            && (MappedBy(hs, local).Some? ==> MappedBy(hs, local).value < |hs|)
            && Resolve(t.localToDb, local)
               == match MappedBy(hs, local) case None => None case Some(k) => Some(RowAt(normalize, s, hs, k))
    decreases |hs|
  {
    if hs != [] {
      var before := hs[..|hs| - 1];
      MappedExactly(normalize, s, before, local);
      if MappedBy(before, local).Some? {
        assert before[..MappedBy(before, local).value] == hs[..MappedBy(before, local).value];
      }
    }
  }

  predicate WritesUnder(e: Logged, local: int) {
    (e.data.InvestigationEvent? || e.data.UpdateInvestigation?) && e.data.investigationId == local
  }

  /** What becomes of a write under a local id, over any passes, failures and restarts: it goes to
      the row of the last start under that id that was replayed since the last restart, and it is
      dropped, with nothing changed, exactly if there is no such start. */
  lemma WriteIsLostExactly(normalize: Normalize, s: Store, hs: seq<Happening>, e: Logged, local: int)
    requires s.localToDb == map[] && s.db.nextId > 0 && local < 0 && WritesUnder(e, local)
    ensures var t := Timeline(normalize, s, hs);
            match MappedBy(hs, local)
            case None => AfterReplay(normalize, t, e) == t
            case Some(k) =>
              && k < |hs| && RowAt(normalize, s, hs, k) > 0
              && AfterReplay(normalize, t, e).db
                 == match e.data {
                      case InvestigationEvent(_, rec) => AfterRecord(t.db, RowAt(normalize, s, hs, k), rec)
                      case UpdateInvestigation(_, u) =>
                        AfterUpdate(normalize, t.db, RowAt(normalize, s, hs, k), AsReplayed(normalize, u, e.timestamp))
                      case _ => t.db
                    }
  {
    MappedExactly(normalize, s, hs, local);
    if MappedBy(hs, local).Some? {
      NextIdPositive(normalize, s, hs[..MappedBy(hs, local).value]);
    }
  }

  lemma {:induction false} NextIdPositive(normalize: Normalize, s: Store, hs: seq<Happening>)
    requires s.db.nextId > 0
    ensures Timeline(normalize, s, hs).db.nextId > 0
    decreases |hs|
  {
    if hs != [] {
      NextIdPositive(normalize, s, hs[..|hs| - 1]);
    }
  }

  predicate RestartedSince(hs: seq<Happening>, k: nat) {
    exists i :: k < i < |hs| && hs[i].Restarted?
  }

  /** A write reaches the investigation it was meant for if and only if that start was replayed
      and the process has not been restarted since. After a restart it is dropped; after a start
      that raised it goes to an earlier investigation under the same id, if one was replayed
      since the restart. */
  lemma {:induction false} ReachesMeantExactly(hs: seq<Happening>, local: int)
    requires MeantBy(hs, local).Some?
    ensures var k := MeantBy(hs, local).value;
            && k < |hs|
            && (MappedBy(hs, local) == Some(k) <==> hs[k].Replayed? && !RestartedSince(hs, k))
            && (RestartedSince(hs, k) ==> MappedBy(hs, local) == None)
    decreases |hs|
  {
    var before, last := hs[..|hs| - 1], hs[|hs| - 1];
    if !last.Restarted? && Starts(last.e, local) {
      MappedIsEarlier(before, local);
    } else {
      ReachesMeantExactly(before, local);
      var k := MeantBy(hs, local).value;
      assert RestartedSince(hs, k) <==> RestartedSince(before, k) || last.Restarted? by {
        if last.Restarted? {
          assert hs[|hs| - 1].Restarted?;
        }
        if i :| k < i < |before| && before[i].Restarted? {
          assert hs[i].Restarted?;
        }
      }
    }
  }

  lemma {:induction false} MappedIsEarlier(hs: seq<Happening>, local: int)
    ensures MappedBy(hs, local).Some? ==> MappedBy(hs, local).value < |hs|
    decreases |hs|
  {
    if hs != [] {
      MappedIsEarlier(hs[..|hs| - 1], local);
    }
  }
}
