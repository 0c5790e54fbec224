/** The ingest of deep-investigation reports (web_server.py, `deep_investigations`): find or
    create the row of an alert, and store the report on a thread that finishes later. */
module DeepIngest {
  import opened Wrappers

  /** An alert's id, empty when it has none, and the trigger its row is started under. */
  datatype Alert = Alert(id: string, trigger: string)

  /** `Reported` is what a stored report leaves; it is never one of the other two. */
  datatype Outcome = InProgress | Failed | Reported(text: string)

  datatype Row = Row(alertId: string, trigger: string, outcome: Outcome, startedAt: int)

  /** The investigations table: the row with id `n` is at index `n - 1`. */
  type Table = seq<Row>

  /** What waits in the outbox: the start of a row under a local id, or an outcome for a row id or
      a local one. */
  datatype Entry = StartEntry(local: int, alert: Alert) | OutcomeEntry(id: int, outcome: Outcome)

  /** The resilient knowledge base as the ingest sees it. `counter` is the last local id given
      out, and `localToDb` the row that replay made for a local id; both belong to one process,
      the table and the outbox outlive it. */
  datatype Kb = Kb(rows: Table, counter: int, outbox: seq<Entry>, localToDb: map<int, nat>)

  /** How an INSERT goes: done; buffered under a local id, because the database failed or is
      deemed away; or raised, because buffering it failed too. */
  datatype Insert = Inserted | Offline | Raised

  /** How an outcome is written: to the row, to the outbox, or not at all. */
  datatype Write = Written | Buffered | Lost

  datatype Reply = Accepted(link: Option<nat>) | Resumed(id: nat) | Duplicate(id: nat)

  const WINDOW_S := 900

  predicate Exists(rows: Table, id: nat) {
    1 <= id <= |rows|
  }

  predicate Matches(row: Row, alert: Alert, since: int) {
    row.alertId == alert.id && row.trigger == alert.trigger && row.startedAt >= since
  }

  /** `find_recent_investigation_for_alert`: the newest matching row. */
  function Newest(rows: Table, alert: Alert, since: int): Option<nat> {
    if rows == [] then None
    else if Matches(rows[|rows| - 1], alert, since) then Some(|rows|)
    else Newest(rows[..|rows| - 1], alert, since)
  }

  predicate MatchesAt(rows: Table, id: nat, alert: Alert, since: int) {
    Exists(rows, id) && Matches(rows[id - 1], alert, since)
  }

  lemma {:induction false} NewestFinds(rows: Table, alert: Alert, since: int)
    ensures Newest(rows, alert, since).None? <==> forall id: nat :: !MatchesAt(rows, id, alert, since)
    ensures Newest(rows, alert, since).Some? ==>
              var id := Newest(rows, alert, since).value;
              && MatchesAt(rows, id, alert, since)
              && forall later: nat :: id < later ==> !MatchesAt(rows, later, alert, since)
    decreases |rows|
  {
    if rows != [] {
      var before := rows[..|rows| - 1];
      NewestFinds(before, alert, since);
      assert MatchesAt(rows, |rows|, alert, since) <==> Matches(rows[|rows| - 1], alert, since);
      assert forall id: nat :: id != |rows| ==> MatchesAt(before, id, alert, since) == MatchesAt(rows, id, alert, since);
    }
  }

  /** What the lookup tells the route; a lookup that raises tells it nothing. */
  function Existing(rows: Table, alert: Alert, lookupOk: bool, now: int): Option<nat> {
    if !lookupOk || alert.id == "" then None else Newest(rows, alert, now - WINDOW_S)
  }

  predicate Resumable(outcome: Outcome) {
    outcome.InProgress? || outcome.Failed?
  }

  function NewRow(alert: Alert, now: int): Row {
    Row(alert.id, alert.trigger, InProgress, now)
  }

  /** The kb after `start_investigation`; a local id is used up even if buffering raises. */
  function AfterStart(kb: Kb, alert: Alert, insert: Insert, now: int): Kb {
    match insert
    case Inserted => kb.(rows := kb.rows + [NewRow(alert, now)])
    case Offline => kb.(counter := kb.counter - 1, outbox := kb.outbox + [StartEntry(kb.counter - 1, alert)])
    case Raised => kb.(counter := kb.counter - 1)
  }

  function StartedId(kb: Kb, insert: Insert): Option<int> {
    match insert
    case Inserted => Some(|kb.rows| + 1)
    case Offline => Some(kb.counter - 1)
    case Raised => None
  }

  function WithOutcome(rows: Table, id: nat, outcome: Outcome): Table {
    if Exists(rows, id) then rows[id - 1 := rows[id - 1].(outcome := outcome)] else rows
  }

  /** The kb after `update_investigation`: an id that is not positive never reaches the table. */
  function AfterUpdate(kb: Kb, id: int, outcome: Outcome, write: Write): Kb {
    if write.Lost? then kb
    else if write.Written? && id > 0 then kb.(rows := WithOutcome(kb.rows, id, outcome))
    else kb.(outbox := kb.outbox + [OutcomeEntry(id, outcome)])
  }

  /** The locked part of the route: the reply, the kb, the id the thread will own (None when there
      is no thread, or none yet), and whether a thread is started. */
  datatype Decision = Decision(reply: Reply, kb: Kb, own: Option<int>, started: bool)

  function Decide(kb: Kb, storing: set<nat>, alert: Alert, lookupOk: bool, insert: Insert, now: int): Decision {
    var existing := Existing(kb.rows, alert, lookupOk, now);
    if existing.Some? && Exists(kb.rows, existing.value) then
      var id := existing.value;
      if !Resumable(kb.rows[id - 1].outcome) || id in storing then Decision(Duplicate(id), kb, None, false)
      else Decision(Resumed(id), kb, Some(id), true)
    else
      var own := StartedId(kb, insert);
      var link := if insert.Inserted? then Some(|kb.rows| + 1) else None;
      Decision(Accepted(link), AfterStart(kb, alert, insert, now), own, true)
  }

  function Owned(own: Option<int>): set<nat> {
    if own.Some? && own.value > 0 then {own.value} else {}
  }

  // ---- what the steps do, case by case --------------------------------------------------

  /** The row an alert was last given within the window is the one that the lookup knows. */
  ghost predicate LastGiven(rows: Table, alert: Alert, now: int, id: nat) {
    && GivenAt(rows, alert, now, id)
    && forall later: nat :: id < later ==> !GivenAt(rows, alert, now, later)
  }

  predicate GivenAt(rows: Table, alert: Alert, now: int, id: nat) {
    && 1 <= id <= |rows|
    && rows[id - 1].alertId == alert.id && rows[id - 1].trigger == alert.trigger
    && now - rows[id - 1].startedAt <= 900
  }

  /** No row is known: the lookup raised, the alert has no id, or none was given within the window. */
  ghost predicate Unknown(rows: Table, alert: Alert, lookupOk: bool, now: int) {
    lookupOk && alert.id != "" ==> forall id: nat :: !GivenAt(rows, alert, now, id)
  }

  predicate Begun(before: Kb, after: Kb, alert: Alert, insert: Insert, now: int, own: Option<int>) {
    && after.localToDb == before.localToDb
    && match insert
       case Inserted =>
         && after.rows == before.rows + [Row(alert.id, alert.trigger, InProgress, now)]
         && own == Some(|before.rows| + 1) && after.counter == before.counter && after.outbox == before.outbox
       case Offline =>
         && after.rows == before.rows && after.counter == before.counter - 1 && own == Some(before.counter - 1)
         && after.outbox == before.outbox + [StartEntry(before.counter - 1, alert)]
       case Raised =>
         && after.rows == before.rows && after.counter == before.counter - 1 && own == None
         && after.outbox == before.outbox
  }

  lemma GivenIsMatch(rows: Table, alert: Alert, now: int, id: nat)
    ensures GivenAt(rows, alert, now, id) <==> MatchesAt(rows, id, alert, now - WINDOW_S)
  {
  }

  /** What the lookup answers, in terms of the rows. */
  lemma ExistingExactly(rows: Table, alert: Alert, lookupOk: bool, now: int)
    ensures Existing(rows, alert, lookupOk, now).None? <==> Unknown(rows, alert, lookupOk, now)
    ensures forall id: nat :: Existing(rows, alert, lookupOk, now) == Some(id) ==>
                                lookupOk && alert.id != "" && LastGiven(rows, alert, now, id)
  {
    NewestFinds(rows, alert, now - WINDOW_S);
    forall id: nat
      ensures GivenAt(rows, alert, now, id) <==> MatchesAt(rows, id, alert, now - WINDOW_S)
    {
      GivenIsMatch(rows, alert, now, id);
    }
    var newest := Newest(rows, alert, now - WINDOW_S);
    if newest.Some? {
      assert GivenAt(rows, alert, now, newest.value);
    } else {
      forall id: nat
        ensures !GivenAt(rows, alert, now, id)
      {
        assert !MatchesAt(rows, id, alert, now - WINDOW_S);
      }
    }
  }

  /** What the route answers. A known row with a report, or in the hands of a thread, makes the
      post a duplicate; any other known row is resumed; without one a row is begun. The reply names
      the row only if it is in the table. */
  ghost predicate Posted(kb: Kb, storing: set<nat>, alert: Alert, lookupOk: bool, insert: Insert, now: int, d: Decision) {
    match d.reply
    case Duplicate(id) =>
      && lookupOk && alert.id != "" && LastGiven(kb.rows, alert, now, id)
      && (kb.rows[id - 1].outcome.Reported? || id in storing)
      && d.kb == kb && d.own == None && !d.started
    case Resumed(id) =>
      && lookupOk && alert.id != "" && LastGiven(kb.rows, alert, now, id)
      && !kb.rows[id - 1].outcome.Reported? && id !in storing
      && d.kb == kb && d.own == Some(id) && d.started
    case Accepted(link) =>
      && Unknown(kb.rows, alert, lookupOk, now) && Begun(kb, d.kb, alert, insert, now, d.own) && d.started
      && link == if insert.Inserted? then Some(|kb.rows| + 1) else None
  }

  lemma DecisionMeans(kb: Kb, storing: set<nat>, alert: Alert, lookupOk: bool, insert: Insert, now: int)
    ensures Posted(kb, storing, alert, lookupOk, insert, now, Decide(kb, storing, alert, lookupOk, insert, now))
  {
    ExistingExactly(kb.rows, alert, lookupOk, now);
  }

  /** An outcome is written to its row alone, or waits in the outbox, or is lost. */
  lemma UpdateMeans(kb: Kb, id: int, outcome: Outcome, write: Write)
    ensures var after := AfterUpdate(kb, id, outcome, write);
            && after.counter == kb.counter && after.localToDb == kb.localToDb && |after.rows| == |kb.rows|
            && (forall k :: 0 <= k < |kb.rows| ==>
                  after.rows[k] == if write.Written? && k == id - 1
                                   then Row(kb.rows[k].alertId, kb.rows[k].trigger, outcome, kb.rows[k].startedAt)
                                   else kb.rows[k])
            && after.outbox == kb.outbox + (if write.Buffered? || (write.Written? && id <= 0)
                                            then [OutcomeEntry(id, outcome)] else [])
  {
  }

  // ---- the program --------------------------------------------------------------------

  class Ingest {
    var kb: Kb
    var storing: set<nat>

    constructor (kb: Kb)
      ensures this.kb == kb && storing == {}
    {
      this.kb, storing := kb, {};
    }

    /** `begin_deep_investigation`, and the claim on the row if there is one. */
    method Begin(alert: Alert, insert: Insert, now: int) returns (own: Option<int>)
      modifies this
      ensures own == StartedId(old(kb), insert) && kb == AfterStart(old(kb), alert, insert, now)
      ensures Begun(old(kb), kb, alert, insert, now, own)
      ensures storing == old(storing) + (if own.Some? && own.value > 0 then {own.value} else {})
    {
      match insert {
        case Inserted =>
          kb := kb.(rows := kb.rows + [NewRow(alert, now)]);
          own := Some(|kb.rows|);
        case Offline =>
          kb := kb.(counter := kb.counter - 1);
          kb := kb.(outbox := kb.outbox + [StartEntry(kb.counter, alert)]);
          own := Some(kb.counter);
        case Raised =>
          kb := kb.(counter := kb.counter - 1);
          own := None;
      }
      if own.Some? && own.value > 0 {
        storing := storing + {own.value};
      }
    }

    /** The part of the route under the lock. */
    method Post(alert: Alert, lookupOk: bool, insert: Insert, now: int)
      returns (reply: Reply, own: Option<int>, started: bool)
      modifies this
      ensures Decision(reply, kb, own, started) == Decide(old(kb), old(storing), alert, lookupOk, insert, now)
      ensures Posted(old(kb), old(storing), alert, lookupOk, insert, now, Decision(reply, kb, own, started))
      ensures storing == old(storing) + (if own.Some? && own.value > 0 then {own.value} else {})
    {
      DecisionMeans(kb, storing, alert, lookupOk, insert, now);
      var existing := Existing(kb.rows, alert, lookupOk, now);
      if existing.Some? && Exists(kb.rows, existing.value) {
        var id := existing.value;
        if !Resumable(kb.rows[id - 1].outcome) || id in storing {
          return Duplicate(id), None, false;
        }
        storing := storing + {id};
        return Resumed(id), Some(id), true;
      }
      own := Begin(alert, insert, now);
      return Accepted(if insert.Inserted? then Some(|kb.rows|) else None), own, true;
    }

    /** The thread's last act. */
    method Discard(own: Option<int>)
      modifies this`storing
      ensures storing == old(storing) - (if own.Some? && own.value > 0 then {own.value} else {})
    {
      if own.Some? && own.value > 0 {
        storing := storing - {own.value};
      }
    }
  }

  // ---- interleavings ----------------------------------------------------------------------

  datatype Phase = Inserting | Storing | Stored | Gone

  /** One storage thread. */
  datatype Thread = Thread(alert: Alert, own: Option<int>, phase: Phase)

  /** `handed` are the outbox entries that replay has handed over or skipped. */
  datatype State = State(
    kb: Kb,
    storing: set<nat>,
    threads: seq<Thread>,
    replies: seq<(Alert, Reply)>,
    handed: set<Entry>)

  /** `Store` is the storing of thread `t`'s report: `Some(text)` leaves that outcome, None is a
      failure, which marks a row failed. `Replay` and `Skip` take the oldest entry of the outbox,
      and `Keep` puts one back whose file replay did not delete. `OtherRow` and `OtherStart` are
      the starts of other investigations, which share the table, the local ids and the outbox. */
  datatype Step =
    | Post(alert: Alert, lookupOk: bool, insert: Insert, now: int)
    | InsertAgain(t: nat, insert: Insert, now: int)
    | Store(t: nat, report: Option<string>, write: Write)
    | Discard(t: nat)
    | Replay(now: int)
    | Skip
    | Keep(entry: Entry)
    | Restart
    | OtherRow(row: Row)
    | OtherStart(alert: Alert)

  const START := State(Kb([], -1, [], map[]), {}, [], [], {})

  /** Rows of other kinds are started under triggers that no deep report uses; a report whose
      write is lost is a failure. */
  predicate Enabled(s: State, step: Step, deep: string -> bool) {
    match step
    case Post(alert, _, _, _) => deep(alert.trigger)
    case InsertAgain(t, _, _) => t < |s.threads| && s.threads[t].phase.Inserting?
    case Store(t, report, write) => t < |s.threads| && s.threads[t].phase.Storing? && (report.Some? ==> !write.Lost?)
    case Discard(t) => t < |s.threads| && s.threads[t].phase.Stored?
    case Replay(_) => s.kb.outbox != []
    case Skip => s.kb.outbox != []
    case Keep(entry) => entry in s.handed
    case Restart => true
    case OtherRow(row) => !deep(row.trigger)
    case OtherStart(alert) => !deep(alert.trigger)
  }

  function AfterStore(kb: Kb, own: Option<int>, report: Option<string>, write: Write): Kb {
    if own.None? then kb
    else if report.Some? then AfterUpdate(kb, own.value, Reported(report.value), write)
    else if own.value > 0 then AfterUpdate(kb, own.value, Failed, write)
    else kb
  }

  /** The row an id stands for. */
  function Resolved(kb: Kb, id: int): Option<nat> {
    if id >= 0 then Some(id) else if id in kb.localToDb then Some(kb.localToDb[id]) else None
  }

  /** The kb after `_replay_event` on the oldest entry. */
  function AfterReplay(kb: Kb, now: int): Kb
    requires kb.outbox != []
  {
    var rest := kb.outbox[1..];
    match kb.outbox[0]
    case StartEntry(local, alert) =>
      kb.(rows := kb.rows + [NewRow(alert, now)], outbox := rest, localToDb := kb.localToDb[local := |kb.rows| + 1])
    case OutcomeEntry(id, outcome) =>
      var row := Resolved(kb, id);
      kb.(rows := if row.Some? then WithOutcome(kb.rows, row.value, outcome) else kb.rows, outbox := rest)
  }

  /** A thread stores its report under its id, or marks its row failed; a failed thread whose
      start only waits writes nothing, and one without an id neither. */
  lemma StoreMeans(kb: Kb, own: Option<int>, report: Option<string>, write: Write)
    ensures var after := AfterStore(kb, own, report, write);
            && (own.None? ==> after == kb)
            && (own.Some? && report.Some? ==> after == AfterUpdate(kb, own.value, Reported(report.value), write))
            && (own.Some? && report.None? && own.value > 0 ==> after == AfterUpdate(kb, own.value, Failed, write))
            && (own.Some? && report.None? && own.value <= 0 ==> after == kb)
  {
  }

  /** Replay takes the oldest entry off the outbox. A start gets a new row, which its local id is
      mapped to; an outcome reaches the row it is for, the mapped one for a local id, or none. */
  lemma ReplayMeans(kb: Kb, now: int)
    requires kb.outbox != []
    ensures var after := AfterReplay(kb, now);
            && kb.outbox == [kb.outbox[0]] + after.outbox && after.counter == kb.counter
            && match kb.outbox[0] {
                 case StartEntry(local, alert) =>
                   && after.rows == kb.rows + [Row(alert.id, alert.trigger, InProgress, now)]
                   && after.localToDb == kb.localToDb[local := |kb.rows| + 1]
                 case OutcomeEntry(id, outcome) =>
                   && after.localToDb == kb.localToDb && |after.rows| == |kb.rows|
                   && (forall k: nat :: k < |kb.rows| ==>
                         after.rows[k]
                         == if id == k + 1 || (id < 0 && id in kb.localToDb && kb.localToDb[id] == k + 1)
                            then Row(kb.rows[k].alertId, kb.rows[k].trigger, outcome, kb.rows[k].startedAt)
                            else kb.rows[k])
               }
  {
  }

  function Next(s: State, step: Step, deep: string -> bool): State
    requires Enabled(s, step, deep)
  {
    match step
    case Post(alert, lookupOk, insert, now) =>
      var d := Decide(s.kb, s.storing, alert, lookupOk, insert, now);
      s.(kb := d.kb, storing := s.storing + Owned(d.own),
         threads := if d.started then s.threads + [NewThread(alert, d.own)] else s.threads,
         replies := s.replies + [(alert, d.reply)])
    case InsertAgain(t, insert, now) =>
      var own := StartedId(s.kb, insert);
      s.(kb := AfterStart(s.kb, s.threads[t].alert, insert, now), storing := s.storing + Owned(own),
         threads := s.threads[t := s.threads[t].(own := own, phase := if own.None? then Stored else Storing)])
    case Store(t, report, write) =>
      s.(kb := AfterStore(s.kb, s.threads[t].own, report, write),
         threads := s.threads[t := s.threads[t].(phase := Stored)])
    case Discard(t) =>
      s.(storing := s.storing - Owned(s.threads[t].own), threads := s.threads[t := s.threads[t].(phase := Gone)])
    case Replay(now) => s.(kb := AfterReplay(s.kb, now), handed := s.handed + {s.kb.outbox[0]})
    case Skip => s.(kb := s.kb.(outbox := s.kb.outbox[1..]), handed := s.handed + {s.kb.outbox[0]})
    case Keep(entry) => s.(kb := s.kb.(outbox := [entry] + s.kb.outbox))
    case Restart => s.(kb := s.kb.(counter := -1, localToDb := map[]), storing := {}, threads := [])
    case OtherRow(row) => s.(kb := s.kb.(rows := s.kb.rows + [row]))
    case OtherStart(alert) => s.(kb := AfterStart(s.kb, alert, Offline, 0))
  }

  function NewThread(alert: Alert, own: Option<int>): Thread {
    Thread(alert, own, if own.None? then Inserting else Storing)
  }

  /** What a step does to the thread `t`: its own insert gives it an id or ends it, storing ends in
      `Stored` whatever became of the report, and its last act is `Discard`; a restart ends all. */
  lemma ThreadsExactly(s: State, step: Step, deep: string -> bool, t: nat)
    requires Enabled(s, step, deep) && t < |s.threads|
    ensures var after := Next(s, step, deep);
            if step.Restart? then after.threads == [] && after.storing == {}
            else
              var own := if step.InsertAgain? && step.t == t then
                           match step.insert {
                             case Inserted => Some(|s.kb.rows| + 1)
                             case Offline => Some(s.kb.counter - 1)
                             case Raised => None
                           }
                         else s.threads[t].own;
              var phase := if step.Store? && step.t == t then Stored
                           else if step.Discard? && step.t == t then Gone
                           else if step.InsertAgain? && step.t == t then (if step.insert.Raised? then Stored else Storing)
                           else s.threads[t].phase;
              |after.threads| >= |s.threads| && after.threads[t] == Thread(s.threads[t].alert, own, phase)
  {
  }

  /** A post adds one reply, and a thread exactly if it is not a duplicate: with the id it was given,
      or still to insert. */
  lemma PostExactly(s: State, step: Step, deep: string -> bool)
    requires Enabled(s, step, deep) && step.Post?
    ensures var after := Next(s, step, deep);
            && |after.replies| == |s.replies| + 1 && after.replies[..|s.replies|] == s.replies
            && var (alert, reply) := after.replies[|s.replies|];
               && alert == step.alert && |after.threads| == |s.threads| + (if reply.Duplicate? then 0 else 1)
               && (!reply.Duplicate? ==>
                     var thread := after.threads[|s.threads|];
                     && thread.alert == step.alert
                     && thread.own == (if reply.Resumed? then Some(reply.id)
                                       else match step.insert {
                                         case Inserted => Some(|s.kb.rows| + 1)
                                         case Offline => Some(s.kb.counter - 1)
                                         case Raised => None
                                       })
                     && thread.phase == if thread.own.None? then Inserting else Storing)
  {
  }

  function After(run: seq<Step>, deep: string -> bool): State {
    if run == [] then START
    else
      var before := After(run[..|run| - 1], deep);
      if Enabled(before, run[|run| - 1], deep) then Next(before, run[|run| - 1], deep) else before
  }

  // ---- one claim a row ----------------------------------------------------------------------

  /** The thread is running and has the row's own id. */
  predicate Owns(thread: Thread, id: nat) {
    !thread.phase.Gone? && id in Owned(thread.own)
  }

  ghost predicate OwnersInv(s: State) {
    && s.kb.counter <= -1
    && (forall id :: id in s.storing ==>
          Exists(s.kb.rows, id) && exists t :: 0 <= t < |s.threads| && Owns(s.threads[t], id))
    && (forall t, id :: 0 <= t < |s.threads| && Owns(s.threads[t], id) ==> id in s.storing)
    && (forall t, u, id :: 0 <= t < u < |s.threads| ==> !(Owns(s.threads[t], id) && Owns(s.threads[u], id)))
    && (forall t :: 0 <= t < |s.threads| && s.threads[t].phase.Inserting? ==> s.threads[t].own.None?)
  }

  lemma StartKeepsOwners(s: State, after: State, alert: Alert, own: Option<int>)
    requires OwnersInv(s)
    requires |s.kb.rows| <= |after.kb.rows| && after.kb.counter <= -1
    requires own.Some? && own.value > 0 ==> Exists(after.kb.rows, own.value) && own.value !in s.storing
    requires after.storing == s.storing + Owned(own) && after.threads == s.threads + [NewThread(alert, own)]
    ensures OwnersInv(after)
  {
    forall id | id in after.storing
      ensures Exists(after.kb.rows, id) && exists t :: 0 <= t < |after.threads| && Owns(after.threads[t], id)
    {
      if id in s.storing {
        var t :| 0 <= t < |s.threads| && Owns(s.threads[t], id);
        assert Owns(after.threads[t], id);
      } else {
        assert Owns(after.threads[|s.threads|], id);
      }
    }
  }

  /** Thread `t` has changed in place: it moved on, and may have taken an id that is free. */
  predicate Changes(s: State, after: State, t: nat, thread: Thread) {
    && t < |s.threads| && |s.kb.rows| <= |after.kb.rows| && after.kb.counter <= -1
    && (thread.phase.Inserting? ==> thread.own.None?)
    && !s.threads[t].phase.Gone?
    && (|| (s.threads[t].own.None? && !thread.phase.Gone?
            && forall id :: id in Owned(thread.own) ==> Exists(after.kb.rows, id) && id !in s.storing)
        || thread.own == s.threads[t].own)
    && after.threads == s.threads[t := thread]
    && after.storing == if thread.phase.Gone? then s.storing - Owned(thread.own) else s.storing + Owned(thread.own)
  }

  lemma ChangeHasOwner(s: State, after: State, t: nat, thread: Thread, id: nat)
    requires OwnersInv(s) && Changes(s, after, t, thread) && id in after.storing
    ensures Exists(after.kb.rows, id) && exists u :: 0 <= u < |after.threads| && Owns(after.threads[u], id)
  {
    if id in Owned(thread.own) {
      assert Owns(after.threads[t], id);
      if thread.own == s.threads[t].own {
        assert Owns(s.threads[t], id);
      }
    } else {
      var u :| 0 <= u < |s.threads| && Owns(s.threads[u], id);
      assert after.threads[u] == s.threads[u];
    }
  }

  /** The inductive step of `OneClaimPerRow` for such a change. */
  lemma ChangeKeepsOwners(s: State, after: State, t: nat, thread: Thread)
    requires OwnersInv(s) && Changes(s, after, t, thread)
    ensures OwnersInv(after)
  {
    forall id | id in after.storing
      ensures Exists(after.kb.rows, id) && exists u :: 0 <= u < |after.threads| && Owns(after.threads[u], id)
    {
      ChangeHasOwner(s, after, t, thread, id);
    }
  }

  lemma StepKeepsOwners(s: State, step: Step, deep: string -> bool)
    requires OwnersInv(s) && Enabled(s, step, deep)
    ensures OwnersInv(Next(s, step, deep))
  {
    var after := Next(s, step, deep);
    match step
    case Post(alert, lookupOk, insert, now) =>
      NewestFinds(s.kb.rows, alert, now - WINDOW_S);
      var d := Decide(s.kb, s.storing, alert, lookupOk, insert, now);
      if d.started {
        StartKeepsOwners(s, after, alert, d.own);
      } else {
        assert after.storing == s.storing;
      }
    case InsertAgain(t, insert, now) =>
      ChangeKeepsOwners(s, after, t, after.threads[t]);
    case Store(t, report, write) =>
      assert s.storing + Owned(s.threads[t].own) == s.storing by {
        assert forall id :: id in Owned(s.threads[t].own) ==> Owns(s.threads[t], id);
      }
      ChangeKeepsOwners(s, after, t, after.threads[t]);
    case Discard(t) =>
      ChangeKeepsOwners(s, after, t, after.threads[t]);
    case _ =>
  }

  /** In every interleaving of posts, storage threads, replays and restarts, whatever fails, a row
      is claimed exactly while one running thread has its id, and never by two. */
  lemma {:induction false} OneClaimPerRow(run: seq<Step>, deep: string -> bool)
    ensures OwnersInv(After(run, deep))
    decreases |run|
  {
    if run != [] {
      var before := After(run[..|run| - 1], deep);
      OneClaimPerRow(run[..|run| - 1], deep);
      if Enabled(before, run[|run| - 1], deep) {
        StepKeepsOwners(before, run[|run| - 1], deep);
      }
    }
  }

  // ---- one writer a row ---------------------------------------------------------------------

  predicate Waiting(outbox: seq<Entry>, local: int) {
    exists k :: 0 <= k < |outbox| && outbox[k].StartEntry? && outbox[k].local == local
  }

  /** The row that a report stored now reaches, now or when the outbox is handed over. A local id
      has none while its start waits: it will get a row of its own. */
  function Target(kb: Kb, own: Option<int>): Option<nat> {
    if own.None? then None
    else if own.value > 0 then Some(own.value)
    else if own.value in kb.localToDb && !Waiting(kb.outbox, own.value) then Some(kb.localToDb[own.value])
    else None
  }

  predicate Writes(kb: Kb, thread: Thread, id: nat) {
    !thread.phase.Gone? && Target(kb, thread.own) == Some(id)
  }

  predicate WritesAt(s: State, t: nat, id: nat) {
    t < |s.threads| && Writes(s.kb, s.threads[t], id)
  }

  ghost predicate OneWriter(s: State) {
    forall t: nat, u: nat, id: nat :: WritesAt(s, t, id) && WritesAt(s, u, id) ==> t == u
  }

  lemma WaitingPeeled(outbox: seq<Entry>)
    requires outbox != []
    ensures forall local :: Waiting(outbox, local) <==>
              (outbox[0].StartEntry? && outbox[0].local == local) || Waiting(outbox[1..], local)
  {
    forall local
      ensures Waiting(outbox, local) <==>
                (outbox[0].StartEntry? && outbox[0].local == local) || Waiting(outbox[1..], local)
    {
      if k :| 0 <= k < |outbox[1..]| && outbox[1..][k].StartEntry? && outbox[1..][k].local == local {
        assert outbox[k + 1] == outbox[1..][k];
      }
      if k :| 0 <= k < |outbox| && outbox[k].StartEntry? && outbox[k].local == local {
        assert k > 0 ==> outbox[1..][k - 1] == outbox[k];
      }
    }
  }

  lemma WaitingAppended(outbox: seq<Entry>, entry: Entry)
    ensures forall local :: Waiting(outbox + [entry], local) <==>
              Waiting(outbox, local) || (entry.StartEntry? && entry.local == local)
  {
    forall local
      ensures Waiting(outbox + [entry], local) <==>
                Waiting(outbox, local) || (entry.StartEntry? && entry.local == local)
    {
      if k :| 0 <= k < |outbox| && outbox[k].StartEntry? && outbox[k].local == local {
        assert (outbox + [entry])[k] == outbox[k];
      }
      assert (outbox + [entry])[|outbox|] == entry;
    }
  }

  /** A step that makes no row of a local id and takes nothing off the outbox. */
  predicate Calm(s: State, after: State) {
    && |s.kb.rows| <= |after.kb.rows|
    && after.kb.localToDb == s.kb.localToDb
    && (after.kb.outbox == s.kb.outbox
        || (after.kb.outbox != [] && after.kb.outbox[1..] == s.kb.outbox)
        || (after.kb.outbox != [] && after.kb.outbox[..|after.kb.outbox| - 1] == s.kb.outbox))
  }

  lemma CalmTargets(s: State, after: State, own: Option<int>)
    requires Calm(s, after)
    ensures Target(after.kb, own).Some? ==> Target(after.kb, own) == Target(s.kb, own)
  {
    if after.kb.outbox != s.kb.outbox {
      if after.kb.outbox[1..] == s.kb.outbox {
        WaitingPeeled(after.kb.outbox);
      } else {
        var last := |after.kb.outbox| - 1;
        assert after.kb.outbox == s.kb.outbox + [after.kb.outbox[last]];
        WaitingAppended(s.kb.outbox, after.kb.outbox[last]);
      }
    }
  }

  /** A calm step in which at most thread `changed` gets another id, one that no thread writes to. */
  lemma CalmKeepsOneWriter(s: State, after: State, changed: nat)
    requires OneWriter(s) && Calm(s, after)
    requires |s.threads| <= |after.threads| <= |s.threads| + 1
    requires |after.threads| > |s.threads| ==> changed == |s.threads|
    requires forall t :: 0 <= t < |s.threads| && t != changed ==>
               after.threads[t].own == s.threads[t].own && (s.threads[t].phase.Gone? ==> after.threads[t].phase.Gone?)
    requires forall t: nat, id: nat :: WritesAt(after, changed, id) && WritesAt(s, t, id) ==> t == changed
    ensures OneWriter(after)
  {
    forall t: nat, id: nat | t != changed && WritesAt(after, t, id)
      ensures WritesAt(s, t, id)
    {
      CalmTargets(s, after, after.threads[t].own);
    }
  }

  /** Local ids are given out once in a process, and every id stands for a row. */
  ghost predicate LocalsInv(s: State) {
    && (forall local :: local in s.kb.localToDb ==> Exists(s.kb.rows, s.kb.localToDb[local]))
    && (forall t :: 0 <= t < |s.threads| ==> LocalOk(s.kb, s.threads[t].own))
    && (forall t, u :: 0 <= t < u < |s.threads| && s.threads[t].own.Some? && s.threads[t].own.value < 0 ==>
          s.threads[t].own != s.threads[u].own)
  }

  predicate LocalOk(kb: Kb, own: Option<int>) {
    own.Some? ==> if own.value < 0 then kb.counter <= own.value else Exists(kb.rows, own.value)
  }

  lemma ThreadKeepsLocals(s: State, after: State, t: nat, own: Option<int>)
    requires LocalsInv(s) && t <= |s.threads|
    requires after.kb.counter <= s.kb.counter && |s.kb.rows| <= |after.kb.rows| && after.kb.localToDb == s.kb.localToDb
    requires LocalOk(after.kb, own)
    requires own.Some? && own.value < 0 ==> own.value < s.kb.counter || (t < |s.threads| && own == s.threads[t].own)
    requires t < |s.threads| ==> |after.threads| == |s.threads|
    requires t == |s.threads| ==> |after.threads| == |s.threads| + 1
    requires after.threads[t].own == own
    requires forall u :: 0 <= u < |s.threads| && u != t ==> after.threads[u].own == s.threads[u].own
    ensures LocalsInv(after)
  {
    forall u | 0 <= u < |s.threads|
      ensures LocalOk(after.kb, s.threads[u].own)
    {
      assert LocalOk(s.kb, s.threads[u].own);
    }
    forall u, v | 0 <= u < v < |after.threads| && after.threads[u].own.Some? && after.threads[u].own.value < 0
      ensures after.threads[u].own != after.threads[v].own
    {
      if u != t && v != t {
        assert s.threads[u].own != s.threads[v].own;
      } else if u == t {
        assert LocalOk(s.kb, s.threads[v].own);
      } else {
        assert LocalOk(s.kb, s.threads[u].own);
      }
    }
  }

  lemma PostKeepsLocals(s: State, step: Step, deep: string -> bool)
    requires LocalsInv(s) && OwnersInv(s) && step.Post? && Enabled(s, step, deep)
    ensures LocalsInv(Next(s, step, deep))
  {
    var d := Decide(s.kb, s.storing, step.alert, step.lookupOk, step.insert, step.now);
    NewestFinds(s.kb.rows, step.alert, step.now - WINDOW_S);
    if d.started {
      ThreadKeepsLocals(s, Next(s, step, deep), |s.threads|, d.own);
    }
  }

  lemma ThreadStepKeepsLocals(s: State, step: Step, deep: string -> bool)
    requires LocalsInv(s) && OwnersInv(s) && Enabled(s, step, deep)
    requires step.InsertAgain? || step.Store? || step.Discard?
    ensures LocalsInv(Next(s, step, deep))
  {
    var after := Next(s, step, deep);
    assert LocalOk(s.kb, s.threads[step.t].own);
    ThreadKeepsLocals(s, after, step.t, after.threads[step.t].own);
  }

  lemma OtherStepKeepsLocals(s: State, step: Step, deep: string -> bool)
    requires LocalsInv(s) && OwnersInv(s) && Enabled(s, step, deep)
    requires !step.Post? && !step.InsertAgain? && !step.Store? && !step.Discard?
    ensures LocalsInv(Next(s, step, deep))
  {
    var after := Next(s, step, deep);
    forall t | 0 <= t < |after.threads|
      ensures LocalOk(after.kb, after.threads[t].own)
    {
      assert LocalOk(s.kb, s.threads[t].own);
    }
  }

  lemma {:induction false} LocalsThroughout(run: seq<Step>, deep: string -> bool)
    ensures LocalsInv(After(run, deep))
    decreases |run|
  {
    if run != [] {
      var before := After(run[..|run| - 1], deep);
      LocalsThroughout(run[..|run| - 1], deep);
      OneClaimPerRow(run[..|run| - 1], deep);
      if Enabled(before, run[|run| - 1], deep) {
        var step := run[|run| - 1];
        if step.Post? {
          PostKeepsLocals(before, step, deep);
        } else if step.InsertAgain? || step.Store? || step.Discard? {
          ThreadStepKeepsLocals(before, step, deep);
        } else {
          OtherStepKeepsLocals(before, step, deep);
        }
      }
    }
  }

  /** Thread `t` is running under a local id, and replay has made row `id` of it. */
  predicate ReplayedAs(s: State, t: nat, id: nat) {
    WritesAt(s, t, id) && s.threads[t].own.value < 0
  }

  /** A post resumes a row that replay has made of a running thread; or the waiting start of a
      running thread is skipped while its local id still stands for a row that another one writes. */
  ghost predicate TakesOver(s: State, step: Step) {
    match step
    case Post(alert, lookupOk, insert, now) =>
      var reply := Decide(s.kb, s.storing, alert, lookupOk, insert, now).reply;
      reply.Resumed? && exists t: nat :: ReplayedAs(s, t, reply.id)
    case Skip =>
      && s.kb.outbox != []
      && s.kb.outbox[0].StartEntry?
      && var local := s.kb.outbox[0].local;
      && !Waiting(s.kb.outbox[1..], local)
      && local in s.kb.localToDb
      && exists t: nat, u: nat :: t != u && UnderLocal(s, t, local) && WritesAt(s, u, s.kb.localToDb[local])
    case _ => false
  }

  predicate UnderLocal(s: State, t: nat, local: int) {
    t < |s.threads| && !s.threads[t].phase.Gone? && s.threads[t].own == Some(local) && local < 0
  }

  lemma WritersExist(s: State)
    requires LocalsInv(s)
    ensures forall t: nat, id: nat :: WritesAt(s, t, id) ==> Exists(s.kb.rows, id)
  {
    forall t: nat, id: nat | WritesAt(s, t, id)
      ensures Exists(s.kb.rows, id)
    {
      assert LocalOk(s.kb, s.threads[t].own);
    }
  }

  /** An id just given out stands for a new row, or for none yet. */
  lemma StartedTarget(kb: Kb, alert: Alert, insert: Insert, now: int)
    requires kb.counter <= -1
    ensures var target := Target(AfterStart(kb, alert, insert, now), StartedId(kb, insert));
            target == None || target == Some(|kb.rows| + 1)
  {
    if insert.Offline? {
      WaitingAppended(kb.outbox, StartEntry(kb.counter - 1, alert));
    }
  }

  lemma PostOneWriter(s: State, step: Step, deep: string -> bool)
    requires LocalsInv(s) && OwnersInv(s) && OneWriter(s) && step.Post? && Enabled(s, step, deep)
    ensures OneWriter(Next(s, step, deep)) <==> !TakesOver(s, step)
  {
    var after := Next(s, step, deep);
    var d := Decide(s.kb, s.storing, step.alert, step.lookupOk, step.insert, step.now);
    NewestFinds(s.kb.rows, step.alert, step.now - WINDOW_S);
    WritersExist(s);
    if d.reply.Resumed? {
      var id := d.reply.id;
      assert WritesAt(after, |s.threads|, id);
      forall t: nat | WritesAt(s, t, id)
        ensures ReplayedAs(s, t, id)
      {
        assert LocalOk(s.kb, s.threads[t].own);
        assert !Owns(s.threads[t], id);
      }
      if t: nat :| WritesAt(s, t, id) {
        assert WritesAt(after, t, id);
      } else {
        CalmKeepsOneWriter(s, after, |s.threads|);
      }
    } else {
      StartedTarget(s.kb, step.alert, step.insert, step.now);
      CalmKeepsOneWriter(s, after, |s.threads|);
    }
  }

  lemma SkipOneWriter(s: State, step: Step, deep: string -> bool)
    requires LocalsInv(s) && OneWriter(s) && step.Skip? && Enabled(s, step, deep)
    ensures OneWriter(Next(s, step, deep)) <==> !TakesOver(s, step)
  {
    var after := Next(s, step, deep);
    var head, rest := s.kb.outbox[0], s.kb.outbox[1..];
    WaitingPeeled(s.kb.outbox);
    if head.StartEntry? && !Waiting(rest, head.local) && head.local in s.kb.localToDb {
      var local, id := head.local, s.kb.localToDb[head.local];
      forall t: nat, n: nat
        ensures WritesAt(after, t, n) <==> WritesAt(s, t, n) || (UnderLocal(s, t, local) && n == id)
      {
        if t < |s.threads| && !s.threads[t].phase.Gone? && !UnderLocal(s, t, local) {
          assert LocalOk(s.kb, s.threads[t].own);
          assert Target(after.kb, s.threads[t].own) == Target(s.kb, s.threads[t].own);
        }
      }
      if t: nat, u: nat :| t != u && UnderLocal(s, t, local) && WritesAt(s, u, id) {
        assert WritesAt(after, t, id) && WritesAt(after, u, id);
      }
    } else {
      assert forall t: nat, n: nat :: WritesAt(after, t, n) == WritesAt(s, t, n);
    }
  }

  lemma ReplayOneWriter(s: State, step: Step, deep: string -> bool)
    requires LocalsInv(s) && OneWriter(s) && step.Replay? && Enabled(s, step, deep)
    ensures OneWriter(Next(s, step, deep))
  {
    var after := Next(s, step, deep);
    var head, rest := s.kb.outbox[0], s.kb.outbox[1..];
    WaitingPeeled(s.kb.outbox);
    if head.StartEntry? {
      forall t: nat, n: nat | WritesAt(after, t, n)
        ensures WritesAt(s, t, n) || (n == |s.kb.rows| + 1 && UnderLocal(s, t, head.local))
      {
      }
    } else {
      assert forall t: nat, n: nat :: WritesAt(after, t, n) == WritesAt(s, t, n);
    }
  }

  lemma OtherOneWriter(s: State, step: Step, deep: string -> bool)
    requires LocalsInv(s) && OwnersInv(s) && OneWriter(s) && Enabled(s, step, deep)
    requires !step.Post? && !step.Skip? && !step.Replay?
    ensures OneWriter(Next(s, step, deep))
  {
    var after := Next(s, step, deep);
    WritersExist(s);
    if step.InsertAgain? {
      StartedTarget(s.kb, s.threads[step.t].alert, step.insert, step.now);
      CalmKeepsOneWriter(s, after, step.t);
    } else if !step.Restart? {
      CalmKeepsOneWriter(s, after, |s.threads|);
    }
  }

  ghost predicate AlwaysOneWriter(run: seq<Step>, deep: string -> bool) {
    run == [] || (AlwaysOneWriter(run[..|run| - 1], deep) && OneWriter(After(run, deep)))
  }

  ghost predicate NeverTakenOver(run: seq<Step>, deep: string -> bool) {
    run == [] || (&& NeverTakenOver(run[..|run| - 1], deep)
                  && var before := After(run[..|run| - 1], deep);
                  Enabled(before, run[|run| - 1], deep) ==> !TakesOver(before, run[|run| - 1]))
  }

  /** Exactly when no two running threads ever write to one row: never is a row that replay made
      of a running thread resumed, nor the start of one skipped over an older row of its id. */
  lemma {:induction false} OneWriterExactly(run: seq<Step>, deep: string -> bool)
    ensures AlwaysOneWriter(run, deep) <==> NeverTakenOver(run, deep)
    ensures AlwaysOneWriter(run, deep) ==> OneWriter(After(run, deep))
    decreases |run|
  {
    if run != [] {
      var front, step := run[..|run| - 1], run[|run| - 1];
      var before := After(front, deep);
      OneWriterExactly(front, deep);
      if AlwaysOneWriter(front, deep) && Enabled(before, step, deep) {
        LocalsThroughout(front, deep);
        OneClaimPerRow(front, deep);
        if step.Post? {
          PostOneWriter(before, step, deep);
        } else if step.Skip? {
          SkipOneWriter(before, step, deep);
        } else if step.Replay? {
          ReplayOneWriter(before, step, deep);
        } else {
          OtherOneWriter(before, step, deep);
        }
      }
    }
  }

  /** It happens, whether or not the first lookup raises: the row is buffered during an outage,
      replay makes it while its thread is still running, and a retry resumes it. */
  lemma ReplayedStartIsResumed(alert: Alert, lookupOk: bool)
    requires alert.id != ""
    ensures var deep := (trigger: string) => true;
            var run := [Post(alert, lookupOk, Offline, 0)] + [Replay(10)] + [Post(alert, true, Inserted, 20)];
            var s := After(run, deep);
            && s.replies == [(alert, Accepted(None)), (alert, Resumed(1))]
            && WritesAt(s, 0, 1) && WritesAt(s, 1, 1)
  {
    var deep := (trigger: string) => true;
    var first, second, third := Post(alert, lookupOk, Offline, 0), Replay(10), Post(alert, true, Inserted, 20);
    var thread := Thread(alert, Some(-2), Storing);
    var s1 := State(Kb([], -2, [StartEntry(-2, alert)], map[]), {}, [thread], [(alert, Accepted(None))], {});
    var s2 := State(Kb([NewRow(alert, 10)], -2, [], map[-2 := 1]), {}, [thread], [(alert, Accepted(None))],
                    {StartEntry(-2, alert)});
    assert [first][..0] == [];
    assert After([first], deep) == s1;
    assert ([first] + [second])[..1] == [first];
    assert After([first] + [second], deep) == s2;
    assert ([first] + [second] + [third])[..2] == [first] + [second];
    assert After([first] + [second] + [third], deep) == Next(s2, third, deep);
  }

  // ---- duplicate or resumed -------------------------------------------------------------------

  /** What a lookup that succeeds leads to: the newest row of the alert in the window is answered
      as a duplicate exactly if its report is stored or a running thread has claimed it, and
      otherwise it is resumed, with a thread of its own. A resumed row has another writer only if
      replay has made it of a running thread. */
  lemma ResumedExactly(run: seq<Step>, deep: string -> bool, alert: Alert, insert: Insert, now: int, id: nat)
    requires alert.id != "" && Newest(After(run, deep).kb.rows, alert, now - WINDOW_S) == Some(id)
    ensures var s := After(run, deep);
            var d := Decide(s.kb, s.storing, alert, true, insert, now);
            && Exists(s.kb.rows, id) && d.kb == s.kb
            && (d.reply == Duplicate(id) <==>
                  s.kb.rows[id - 1].outcome.Reported? || exists t :: 0 <= t < |s.threads| && Owns(s.threads[t], id))
            && (d.reply == Duplicate(id) ==> !d.started)
            && (d.reply != Duplicate(id) ==>
                  && d.reply == Resumed(id) && d.started && d.own == Some(id)
                  && forall t: nat :: WritesAt(s, t, id) ==> ReplayedAs(s, t, id))
  {
    var s := After(run, deep);
    OneClaimPerRow(run, deep);
    NewestFinds(s.kb.rows, alert, now - WINDOW_S);
    LocalsThroughout(run, deep);
    forall t: nat | WritesAt(s, t, id) && s.threads[t].own.value >= 0
      ensures Owns(s.threads[t], id)
    {
      assert LocalOk(s.kb, s.threads[t].own);
    }
  }

  // ---- find or create -----------------------------------------------------------------------

  predicate RowOfAlert(rows: Table, id: nat, alert: Alert) {
    Exists(rows, id) && rows[id - 1].alertId == alert.id && rows[id - 1].trigger == alert.trigger
  }

  predicate StartOf(entry: Entry, alert: Alert) {
    entry.StartEntry? && entry.alert == alert
  }

  function Published(reply: Reply): Option<nat> {
    match reply
    case Accepted(link) => link
    case Resumed(id) => Some(id)
    case Duplicate(id) => Some(id)
  }

  ghost predicate FoundOrCreated(s: State, alert: Alert, since: int) {
    && (forall i: nat, j: nat :: RowOfAlert(s.kb.rows, i, alert) && RowOfAlert(s.kb.rows, j, alert) ==> i == j)
    && (forall i: nat :: RowOfAlert(s.kb.rows, i, alert) ==> s.kb.rows[i - 1].startedAt >= since)
    && (forall t :: 0 <= t < |s.threads| && s.threads[t].phase.Inserting? ==> s.threads[t].alert != alert)
    && (forall k :: 0 <= k < |s.kb.outbox| ==> !StartOf(s.kb.outbox[k], alert))
    && (forall entry :: entry in s.handed ==> !StartOf(entry, alert))
    && (forall k :: 0 <= k < |s.replies| && s.replies[k].0 == alert ==>
          Published(s.replies[k].1).Some? && RowOfAlert(s.kb.rows, Published(s.replies[k].1).value, alert))
  }

  /** Every post for the alert falls inside one lookup window, and its lookup and its INSERT
      succeed. */
  predicate Clean(step: Step, alert: Alert, since: int) {
    step.Post? && step.alert == alert ==>
      step.lookupOk && step.insert.Inserted? && since <= step.now <= since + WINDOW_S
  }

  lemma PostFindsOrCreates(s: State, step: Step, deep: string -> bool, alert: Alert, since: int)
    requires FoundOrCreated(s, alert, since) && step.Post? && step.alert == alert && alert.id != ""
    requires Enabled(s, step, deep) && Clean(step, alert, since)
    ensures FoundOrCreated(Next(s, step, deep), alert, since)
  {
    var rows := s.kb.rows;
    NewestFinds(rows, alert, step.now - WINDOW_S);
    var after := Next(s, step, deep);
    var newest := Newest(rows, alert, step.now - WINDOW_S);
    if newest.Some? {
      assert after.kb == s.kb;
    } else {
      assert forall i: nat :: !RowOfAlert(rows, i, alert) by {
        forall i: nat | RowOfAlert(rows, i, alert)
          ensures false
        {
          assert MatchesAt(rows, i, alert, step.now - WINDOW_S);
        }
      }
      assert after.kb.rows == rows + [NewRow(alert, step.now)];
      assert forall i: nat :: Exists(rows, i) ==> RowOfAlert(after.kb.rows, i, alert) == RowOfAlert(rows, i, alert);
      assert forall i: nat :: RowOfAlert(after.kb.rows, i, alert) <==> i == |rows| + 1;
    }
  }

  lemma OtherStepKeeps(s: State, step: Step, deep: string -> bool, alert: Alert, since: int)
    requires FoundOrCreated(s, alert, since) && Enabled(s, step, deep) && deep(alert.trigger)
    requires !(step.Post? && step.alert == alert)
    ensures FoundOrCreated(Next(s, step, deep), alert, since)
  {
    var after := Next(s, step, deep);
    var rows, later := s.kb.rows, after.kb.rows;
    assert forall i: nat :: Exists(rows, i) ==>
      && Exists(later, i)
      && later[i - 1].alertId == rows[i - 1].alertId && later[i - 1].trigger == rows[i - 1].trigger
      && later[i - 1].startedAt == rows[i - 1].startedAt;
    assert forall i: nat :: Exists(later, i) && !Exists(rows, i) ==> !RowOfAlert(later, i, alert);
    assert forall i: nat :: RowOfAlert(later, i, alert) <==> RowOfAlert(rows, i, alert);
  }

  /** Find or create: however posts for one alert, storage threads, replays, restarts and other
      investigations interleave, while the alert's posts stay inside one window and their lookups
      and INSERTs succeed, there is at most one row for the alert and every reply carries it. */
  lemma {:induction false} OneRowPerAlert(run: seq<Step>, deep: string -> bool, alert: Alert, since: int)
    requires alert.id != "" && deep(alert.trigger)
    requires forall i :: 0 <= i < |run| ==> Clean(run[i], alert, since)
    ensures FoundOrCreated(After(run, deep), alert, since)
    decreases |run|
  {
    if run != [] {
      var before, step := After(run[..|run| - 1], deep), run[|run| - 1];
      OneRowPerAlert(run[..|run| - 1], deep, alert, since);
      if Enabled(before, step, deep) {
        if step.Post? && step.alert == alert {
          PostFindsOrCreates(before, step, deep, alert, since);
        } else {
          OtherStepKeeps(before, step, deep, alert, since);
        }
      }
    }
  }

  /** Exactly how an alert that has a row in the window gets a second one: the lookup raised and
      the INSERT went through; a thread whose first INSERT had raised made its own; or replay made
      the row of a start that was buffered for it. */
  lemma SecondRowExactly(s: State, step: Step, deep: string -> bool, alert: Alert, id: nat)
    requires Enabled(s, step, deep) && deep(alert.trigger) && alert.id != ""
    requires RowOfAlert(s.kb.rows, id, alert)
    requires step.Post? ==> s.kb.rows[id - 1].startedAt >= step.now - WINDOW_S
    ensures (exists new_: nat :: new_ > |s.kb.rows| && RowOfAlert(Next(s, step, deep).kb.rows, new_, alert)) <==>
              match step
              case Post(a, lookupOk, insert, _) => a == alert && !lookupOk && insert.Inserted?
              case InsertAgain(t, insert, _) => s.threads[t].alert == alert && insert.Inserted?
              case Replay(_) => StartOf(s.kb.outbox[0], alert)
              case _ => false
  {
    var rows, later := s.kb.rows, Next(s, step, deep).kb.rows;
    if step.Post? {
      NewestFinds(rows, step.alert, step.now - WINDOW_S);
      if step.alert == alert {
        assert MatchesAt(rows, id, alert, step.now - WINDOW_S);
      }
    }
    if |later| > |rows| {
      assert |later| == |rows| + 1;
      assert RowOfAlert(later, |rows| + 1, alert) <==>
               later[|rows|].alertId == alert.id && later[|rows|].trigger == alert.trigger;
    }
  }

  /** It happens in an ordinary outage, whether or not the first lookup raises: the first attempt's
      row is buffered, the retry finds none and makes one, and then replay makes the first. */
  lemma BufferedStartMakesSecondRow(alert: Alert, lookupOk: bool)
    requires alert.id != ""
    ensures var deep := (trigger: string) => true;
            var run := [Post(alert, lookupOk, Offline, 0)] + [Post(alert, true, Inserted, 20)] + [Replay(30)];
            After(run, deep).kb.rows == [NewRow(alert, 20), NewRow(alert, 30)]
  {
    var deep := (trigger: string) => true;
    var first, second, third := Post(alert, lookupOk, Offline, 0), Post(alert, true, Inserted, 20), Replay(30);
    assert [first][..0] == [];
    assert After([first], deep).kb == Kb([], -2, [StartEntry(-2, alert)], map[]);
    assert ([first] + [second])[..1] == [first];
    assert After([first] + [second], deep).kb == Kb([NewRow(alert, 20)], -2, [StartEntry(-2, alert)], map[]);
    assert ([first] + [second] + [third])[..2] == [first] + [second];
  }

  /** And when buffering fails too: the first attempt's INSERT raises, the retry's goes through,
      and then the first attempt's thread makes its own. */
  lemma TwoRowsForOneAlert(alert: Alert)
    requires alert.id != ""
    ensures var deep := (trigger: string) => true;
            var run := [Post(alert, true, Raised, 0)] + [Post(alert, true, Inserted, 20)] + [InsertAgain(0, Inserted, 21)];
            After(run, deep).kb.rows == [NewRow(alert, 20), NewRow(alert, 21)]
  {
    var deep := (trigger: string) => true;
    var first, second, third := Post(alert, true, Raised, 0), Post(alert, true, Inserted, 20), InsertAgain(0, Inserted, 21);
    assert [first][..0] == [];
    assert After([first], deep)
        == State(Kb([], -2, [], map[]), {}, [Thread(alert, None, Inserting)], [(alert, Accepted(None))], {});
    assert ([first] + [second])[..1] == [first];
    assert After([first] + [second], deep).kb.rows == [NewRow(alert, 20)];
    assert After([first] + [second], deep).threads[0] == Thread(alert, None, Inserting);
    assert ([first] + [second] + [third])[..2] == [first] + [second];
  }
}
