/** The investigation tables of agent/knowledge_base.py (`KnowledgeBase`): each method is one
    transaction over a table held as a map from id to row. */
module InvestigationStore {
  import opened Wrappers

  /** What one `record_investigation_event` call carries. */
  datatype Record = Record(eventType: string, toolName: Option<string>, success: bool, detail: string)

  /** What one `update_investigation` call carries; an absent field is left alone. */
  datatype Update = Update(completedAt: Option<int>, findings: Option<string>, outcome: Option<string>,
                           duration: Option<real>, toolCalls: Option<int>)

  datatype Row = Row(trigger: string, alertId: Option<string>, completedAt: Option<int>, findings: string,
                     outcome: string, duration: Option<real>, toolCalls: int)

  datatype Database = Database(rows: map<int, Row>, nextId: int, events: seq<(int, Record)>,
                               drifts: seq<string>, baselines: map<string, string>)

  /** `normalize_outcome`, whose alias table is not part of this model. */
  type Normalize = string -> string

  const NO_FINDINGS := "{}"
  const IN_PROGRESS := "in_progress"

  function Override<V>(given: Option<V>, was: V): V {
    if given.Some? then given.value else was
  }

  function NewRow(trigger: string, alertId: Option<string>): Row {
    Row(trigger, if alertId == Some("") then None else alertId, None, NO_FINDINGS, IN_PROGRESS, None, 0)
  }

  function Updated(normalize: Normalize, row: Row, u: Update): Row {
    row.(completedAt := if u.completedAt.Some? then u.completedAt else row.completedAt,
         findings := Override(u.findings, row.findings),
         outcome := if u.outcome.Some? then normalize(u.outcome.value) else row.outcome,
         duration := if u.duration.Some? then u.duration else row.duration,
         toolCalls := Override(u.toolCalls, row.toolCalls))
  }

  function AfterStart(db: Database, trigger: string, alertId: Option<string>): Database {
    db.(rows := db.rows[db.nextId := NewRow(trigger, alertId)], nextId := db.nextId + 1)
  }

  function AfterRecord(db: Database, id: int, rec: Record): Database {
    db.(events := db.events + [(id, rec)])
  }

  function AfterUpdate(normalize: Normalize, db: Database, id: int, u: Update): Database {
    if id in db.rows then db.(rows := db.rows[id := Updated(normalize, db.rows[id], u)]) else db
  }

  /** The events of one investigation, oldest first. */
  function EventsOf(events: seq<(int, Record)>, id: int): seq<Record> {
    if events == [] then []
    else
      var last := events[|events| - 1];
      EventsOf(events[..|events| - 1], id) + if last.0 == id then [last.1] else []
  }

  /** Everything the database holds about one investigation. */
  datatype View = View(row: Row, events: seq<Record>)

  function ViewOf(db: Database, id: int): View
    requires id in db.rows
  {
    View(db.rows[id], EventsOf(db.events, id))
  }

  /** One write to an investigation, with the time it was made. */
  datatype Op = RecordOp(rec: Record) | UpdateOp(update: Update, at: int)

  /** The writes made straight to the database, in order. */
  function Direct(normalize: Normalize, db: Database, id: int, ops: seq<Op>): Database {
    if ops == [] then db
    else
      var before := Direct(normalize, db, id, ops[..|ops| - 1]);
      match ops[|ops| - 1]
      case RecordOp(rec) => AfterRecord(before, id, rec)
      case UpdateOp(u, _) => AfterUpdate(normalize, before, id, u)
  }

  /** An investigation started and written to while online. */
  function Online(normalize: Normalize, db: Database, trigger: string, alertId: Option<string>, ops: seq<Op>): Database {
    Direct(normalize, AfterStart(db, trigger, alertId), db.nextId, ops)
  }

  function ViewAfterOp(normalize: Normalize, v: View, op: Op): View {
    match op
    case RecordOp(rec) => v.(events := v.events + [rec])
    case UpdateOp(u, _) => v.(row := Updated(normalize, v.row, u))
  }

  function ViewAfter(normalize: Normalize, v: View, ops: seq<Op>): View {
    if ops == [] then v
    else ViewAfterOp(normalize, ViewAfter(normalize, v, ops[..|ops| - 1]), ops[|ops| - 1])
  }

  lemma EventsOfSnoc(events: seq<(int, Record)>, e: (int, Record), id: int)
    ensures EventsOf(events + [e], id) == EventsOf(events, id) + if e.0 == id then [e.1] else []
  {
    assert (events + [e])[..|events|] == events;
  }

  /** Direct writes to an investigation change it as its own writes say, whatever else the
      database holds. */
  lemma {:induction false} DirectView(normalize: Normalize, db: Database, id: int, ops: seq<Op>)
    requires id in db.rows
    ensures id in Direct(normalize, db, id, ops).rows
    ensures ViewOf(Direct(normalize, db, id, ops), id) == ViewAfter(normalize, ViewOf(db, id), ops)
    decreases |ops|
  {
    if ops != [] {
      DirectView(normalize, db, id, ops[..|ops| - 1]);
      var before := Direct(normalize, db, id, ops[..|ops| - 1]);
      if ops[|ops| - 1].RecordOp? {
        EventsOfSnoc(before.events, (id, ops[|ops| - 1].rec), id);
      }
    }
  }

  lemma {:induction false} ViewAfterConcat(normalize: Normalize, v: View, a: seq<Op>, b: seq<Op>)
    ensures ViewAfter(normalize, v, a + b) == ViewAfter(normalize, ViewAfter(normalize, v, a), b)
    decreases |b|
  {
    if b == [] {
      assert a + b == a;
    } else {
      assert (a + b)[..|a + b| - 1] == a + b[..|b| - 1];
      ViewAfterConcat(normalize, v, a, b[..|b| - 1]);
    }
  }

  // ---- what a reader finds -------------------------------------------------------------

  function CompletedAtOf(u: Update): Option<int> {
    u.completedAt
  }

  function FindingsOf(u: Update): Option<string> {
    u.findings
  }

  function OutcomeOf(u: Update): Option<string> {
    u.outcome
  }

  function DurationOf(u: Update): Option<real> {
    u.duration
  }

  function ToolCallsOf(u: Update): Option<int> {
    u.toolCalls
  }

  /** The value that the last update to carry the field gave it. */
  function LastGiven<V>(ops: seq<Op>, field: Update -> Option<V>): Option<V> {
    if ops == [] then None
    else
      var last := ops[|ops| - 1];
      if last.UpdateOp? && field(last.update).Some? then field(last.update) else LastGiven(ops[..|ops| - 1], field)
  }

  function RecordsIn(ops: seq<Op>): seq<Record> {
    if ops == [] then []
    else RecordsIn(ops[..|ops| - 1]) + (if ops[|ops| - 1].RecordOp? then [ops[|ops| - 1].rec] else [])
  }

  /** The row reads as the last values given, the outcome normalized, and as `was` where none was;
      the events are all the records, in order. */
  ghost predicate Reads(normalize: Normalize, v: View, ops: seq<Op>, was: View) {
    && v.row.trigger == was.row.trigger && v.row.alertId == was.row.alertId
    && (match LastGiven(ops, CompletedAtOf)
        case Some(at) => v.row.completedAt == Some(at)
        case None => v.row.completedAt == was.row.completedAt)
    && (match LastGiven(ops, FindingsOf)
        case Some(findings) => v.row.findings == findings
        case None => v.row.findings == was.row.findings)
    && (match LastGiven(ops, OutcomeOf)
        case Some(outcome) => v.row.outcome == normalize(outcome)
        case None => v.row.outcome == was.row.outcome)
    && (match LastGiven(ops, DurationOf)
        case Some(duration) => v.row.duration == Some(duration)
        case None => v.row.duration == was.row.duration)
    && (match LastGiven(ops, ToolCallsOf)
        case Some(n) => v.row.toolCalls == n
        case None => v.row.toolCalls == was.row.toolCalls)
    && v.events == was.events + RecordsIn(ops)
  }

  lemma {:induction false} ViewReads(normalize: Normalize, v: View, ops: seq<Op>)
    ensures Reads(normalize, ViewAfter(normalize, v, ops), ops, v)
    decreases |ops|
  {
    if ops == [] {
      assert v.events + RecordsIn(ops) == v.events;
    } else {
      var before, last := ops[..|ops| - 1], ops[|ops| - 1];
      ViewReads(normalize, v, before);
      if last.RecordOp? {
        assert v.events + RecordsIn(before) + [last.rec] == v.events + RecordsIn(ops);
      } else {
        assert RecordsIn(ops) == RecordsIn(before) + [];
      }
    }
  }

  /** What an investigation started and written to directly reads as: its trigger and alert (an
      empty alert id is none), the last value given to each field, `in_progress`, no findings and
      no tool calls where none was given, and its records in order; and it is one row more. */
  lemma OnlineReads(normalize: Normalize, db: Database, trigger: string, alertId: Option<string>, ops: seq<Op>)
    requires NoStrayEvents(db)
    ensures var after := Online(normalize, db, trigger, alertId, ops);
            && db.nextId in after.rows && after.nextId == db.nextId + 1
            && after.rows.Keys == db.rows.Keys + {db.nextId}
            && (forall id :: id in db.rows && id != db.nextId ==> after.rows[id] == db.rows[id])
            && after.drifts == db.drifts && after.baselines == db.baselines
            && Reads(normalize, ViewOf(after, db.nextId), ops,
                     View(Row(trigger, if alertId == Some("") then None else alertId, None, "{}", "in_progress", None, 0), []))
  {
    var start := AfterStart(db, trigger, alertId);
    NoEventsYet(db.events, db.nextId);
    DirectView(normalize, start, db.nextId, ops);
    ViewReads(normalize, ViewOf(start, db.nextId), ops);
    DirectChangesOne(normalize, start, db.nextId, ops);
  }

  lemma {:induction false} DirectChangesOne(normalize: Normalize, db: Database, id: int, ops: seq<Op>)
    requires id in db.rows
    ensures var after := Direct(normalize, db, id, ops);
            && after.rows.Keys == db.rows.Keys && after.nextId == db.nextId
            && (forall other :: other in db.rows && other != id ==> after.rows[other] == db.rows[other])
            && after.drifts == db.drifts && after.baselines == db.baselines
    decreases |ops|
  {
    if ops != [] {
      DirectChangesOne(normalize, db, id, ops[..|ops| - 1]);
    }
  }

  /** No investigation has events under an id that has not been handed out. */
  predicate NoStrayEvents(db: Database) {
    forall i :: 0 <= i < |db.events| ==> db.events[i].0 < db.nextId
  }

  lemma {:induction false} NoEventsYet(events: seq<(int, Record)>, id: int)
    requires forall i :: 0 <= i < |events| ==> events[i].0 != id
    ensures EventsOf(events, id) == []
  {
    if events != [] {
      NoEventsYet(events[..|events| - 1], id);
    }
  }
}
