/** Whole sessions of writes against the resilient knowledge base, some reaching the database
    and some buffered, followed by a replay. */
module OfflineSession {
  import opened Wrappers
  import opened LocalBuffer
  import opened InvestigationStore
  import opened Replay

  /** One call by the agent, or a restart of its process, which numbers local ids from -2 again
      while the outbox survives. `reaches` says whether the database is deemed healthy and the
      database call, if made, does not raise. */
  datatype Call =
    | Start(reaches: bool, trigger: string, alertId: Option<string>, at: int)
    | Record(reaches: bool, id: int, rec: InvestigationStore.Record, at: int)
    | Change(reaches: bool, id: int, update: Update, at: int)
    | Restart

  /** The database, the last local id, the last sequence number and the pending log. */
  datatype Client = Client(db: Database, counter: int, sequence: nat, log: seq<Logged>)

  function Numbered(c: Client, data: Payload, at: int): Logged {
    BufferedEvent(data, at, c.sequence + 1)
  }

  /** The event a call leaves in the outbox, if it does not reach the database. */
  function Emits(c: Client, call: Call): seq<Logged> {
    match call
    case Start(reaches, trigger, alertId, at) =>
      if reaches then [] else [Numbered(c, StartInvestigation(trigger, alertId, c.counter - 1), at)]
    case Record(reaches, id, rec, at) =>
      if reaches && id > 0 then [] else [Numbered(c, InvestigationEvent(id, rec), at)]
    case Change(reaches, id, u, at) =>
      if reaches && id > 0 then [] else [Numbered(c, UpdateInvestigation(id, u), at)]
    case Restart => []
  }

  function DatabaseAfter(normalize: Normalize, db: Database, call: Call): Database {
    match call
    case Start(reaches, trigger, alertId, _) => if reaches then AfterStart(db, trigger, alertId) else db
    case Record(reaches, id, rec, _) => if reaches && id > 0 then AfterRecord(db, id, rec) else db
    case Change(reaches, id, u, _) => if reaches && id > 0 then AfterUpdate(normalize, db, id, u) else db
    case Restart => db
  }

  function AfterCall(normalize: Normalize, c: Client, call: Call): Client {
    if call.Restart? then c.(counter := -1, sequence := MaxSequence(c.log))
    else Client(DatabaseAfter(normalize, c.db, call),
                if call.Start? && !call.reaches then c.counter - 1 else c.counter,
                c.sequence + |Emits(c, call)|,
                c.log + Emits(c, call))
  }

  /** What one call does, and all that it does. */
  lemma CallMeans(normalize: Normalize, c: Client, call: Call)
    ensures var d := AfterCall(normalize, c, call);
            match call
            case Start(reaches, trigger, alertId, at) =>
              && d.db == (if reaches then Online(normalize, c.db, trigger, alertId, []) else c.db)
              && d.counter == (if reaches then c.counter else c.counter - 1)
              && d.sequence == (if reaches then c.sequence else c.sequence + 1)
              && d.log == c.log + (if reaches then []
                                   else [BufferedEvent(StartInvestigation(trigger, alertId, d.counter), at, d.sequence)])
            case Record(reaches, id, rec, at) =>
              && d.db == (if reaches && id > 0 then Direct(normalize, c.db, id, [RecordOp(rec)]) else c.db)
              && d.counter == c.counter && d.sequence == (if reaches && id > 0 then c.sequence else c.sequence + 1)
              && d.log == c.log + (if reaches && id > 0 then []
                                   else [BufferedEvent(InvestigationEvent(id, rec), at, d.sequence)])
            case Change(reaches, id, u, at) =>
              && d.db == (if reaches && id > 0 then Direct(normalize, c.db, id, [UpdateOp(u, at)]) else c.db)
              && d.counter == c.counter && d.sequence == (if reaches && id > 0 then c.sequence else c.sequence + 1)
              && d.log == c.log + (if reaches && id > 0 then []
                                   else [BufferedEvent(UpdateInvestigation(id, u), at, d.sequence)])
            case Restart => d.db == c.db && d.log == c.log && d.counter == -1 && d.sequence == MaxSequence(c.log)
  {
    match call
    case Record(_, id, rec, _) =>
      assert [RecordOp(rec)][..0] == [];
    case Change(_, id, u, at) =>
      assert [UpdateOp(u, at)][..0] == [];
    case _ =>
  }

  function AfterCalls(normalize: Normalize, c: Client, calls: seq<Call>): Client {
    if calls == [] then c
    else AfterCall(normalize, AfterCalls(normalize, c, calls[..|calls| - 1]), calls[|calls| - 1])
  }

  /** What a session adds to the log. */
  function Emitted(normalize: Normalize, c: Client, calls: seq<Call>): seq<Logged>
    decreases |calls|
  {
    if calls == [] then [] else Emits(c, calls[0]) + Emitted(normalize, AfterCall(normalize, c, calls[0]), calls[1..])
  }

  /** What a call means to write to investigation `id`. */
  function Meant(call: Call, id: int): seq<Op> {
    match call
    case Start(_, _, _, _) => []
    case Record(_, i, rec, _) => if i == id then [RecordOp(rec)] else []
    case Change(_, i, u, at) => if i == id then [UpdateOp(u, at)] else []
    case Restart => []
  }

  /** What the agent meant to write to investigation `id`, in order. */
  function Intended(calls: seq<Call>, id: int): seq<Op> {
    if calls == [] then [] else Intended(calls[..|calls| - 1], id) + Meant(calls[|calls| - 1], id)
  }

  /** The id that call `i` of the session returned, for a start that was buffered. */
  function LocalId(normalize: Normalize, c: Client, calls: seq<Call>, i: nat): int
    requires i < |calls|
  {
    AfterCalls(normalize, c, calls[..i]).counter - 1
  }

  predicate StartedOffline(calls: seq<Call>, i: nat) {
    i < |calls| && calls[i].Start? && !calls[i].reaches
  }

  /** How many investigations this process has started offline: since the last restart. */
  function StartsSince(calls: seq<Call>): nat {
    if calls == [] || calls[|calls| - 1].Restart? then 0
    else StartsSince(calls[..|calls| - 1]) + (if StartedOffline(calls, |calls| - 1) then 1 else 0)
  }

  lemma {:induction false} CounterExactly(normalize: Normalize, c: Client, calls: seq<Call>)
    requires c.counter == -1
    ensures AfterCalls(normalize, c, calls).counter == -1 - StartsSince(calls)
    decreases |calls|
  {
    if calls != [] {
      CounterExactly(normalize, c, calls[..|calls| - 1]);
    }
  }

  predicate NoRestart(calls: seq<Call>, i: nat, j: nat) {
    forall k :: i <= k < j && k < |calls| ==> !calls[k].Restart?
  }

  lemma {:induction false} StartsGrow(calls: seq<Call>, i: nat)
    requires StartedOffline(calls, i) && NoRestart(calls, i, |calls|)
    ensures StartsSince(calls[..i]) < StartsSince(calls)
    decreases |calls|
  {
    var before := calls[..|calls| - 1];
    if i == |calls| - 1 {
      assert calls[..i] == before;
    } else {
      assert before[..i] == calls[..i] && StartedOffline(before, i);
      assert forall k :: i <= k < |before| ==> before[k] == calls[k];
      assert !calls[|calls| - 1].Restart?;
      StartsGrow(before, i);
    }
  }

  /** The local ids that offline starts return, over any calls and restarts: the n-th of each
      process gets -1 - n, so never the -1 that other buffered writes return; two of one process
      get different ids, and two of different processes get the same one exactly if they are the
      n-th of both. */
  lemma LocalIdsExactly(normalize: Normalize, c: Client, calls: seq<Call>, i: nat, j: nat)
    requires c.counter == -1 && i < j
    requires StartedOffline(calls, i) && StartedOffline(calls, j)
    ensures LocalId(normalize, c, calls, i) == -2 - StartsSince(calls[..i])
    ensures LocalId(normalize, c, calls, i) == LocalId(normalize, c, calls, j)
       <==> StartsSince(calls[..i]) == StartsSince(calls[..j])
    ensures NoRestart(calls, i, j) ==> LocalId(normalize, c, calls, j) < LocalId(normalize, c, calls, i)
  {
    CounterExactly(normalize, c, calls[..i]);
    CounterExactly(normalize, c, calls[..j]);
    if NoRestart(calls, i, j) {
      assert calls[..j][..i] == calls[..i] && StartedOffline(calls[..j], i);
      assert forall k :: i <= k < j ==> calls[..j][k] == calls[k];
      StartsGrow(calls[..j], i);
    }
  }

  lemma {:induction false} AfterCallsConcat(normalize: Normalize, c: Client, a: seq<Call>, b: seq<Call>)
    ensures AfterCalls(normalize, c, a + b) == AfterCalls(normalize, AfterCalls(normalize, c, a), b)
    decreases |b|
  {
    if b == [] {
      assert a + b == a;
    } else {
      AfterCallsConcat(normalize, c, a, b[..|b| - 1]);
      assert (a + b)[..|a + b| - 1] == a + b[..|b| - 1];
    }
  }

  lemma AfterCallsFront(normalize: Normalize, c: Client, calls: seq<Call>)
    requires calls != []
    ensures AfterCalls(normalize, c, calls) == AfterCalls(normalize, AfterCall(normalize, c, calls[0]), calls[1..])
  {
    AfterCallsConcat(normalize, c, [calls[0]], calls[1..]);
    assert calls == [calls[0]] + calls[1..];
    assert [calls[0]][..0] == [];
  }

  lemma {:induction false} LogIsEmitted(normalize: Normalize, c: Client, calls: seq<Call>)
    ensures AfterCalls(normalize, c, calls).log == c.log + Emitted(normalize, c, calls)
    decreases |calls|
  {
    if calls != [] {
      var next := AfterCall(normalize, c, calls[0]);
      AfterCallsFront(normalize, c, calls);
      LogIsEmitted(normalize, next, calls[1..]);
      assert next.log == c.log + Emits(c, calls[0]);
    }
  }

  // ---- what was meant, and what the log says -------------------------------------------

  /** A start that returns `local`: from here on the id means another investigation. */
  predicate Reuses(c: Client, call: Call, local: int) {
    call.Start? && !call.reaches && c.counter - 1 == local
  }

  /** What the agent, standing at `c`, goes on to write under `local` before the id is reused. */
  function MeantUntilReuse(normalize: Normalize, c: Client, calls: seq<Call>, local: int): seq<Op>
    decreases |calls|
  {
    if calls == [] || Reuses(c, calls[0], local) then []
    else Meant(calls[0], local) + MeantUntilReuse(normalize, AfterCall(normalize, c, calls[0]), calls[1..], local)
  }

  lemma {:induction false} OpsOfConcat(a: seq<Logged>, b: seq<Logged>, id: int)
    ensures OpsOf(a + b, id) == OpsOf(a, id) + OpsOf(b, id)
    decreases |b|
  {
    if b == [] {
      assert a + b == a;
    } else {
      assert (a + b)[..|a + b| - 1] == a + b[..|b| - 1];
      OpsOfConcat(a, b[..|b| - 1], id);
    }
  }

  lemma OpsOfOne(e: Logged, id: int)
    ensures OpsOf([e], id) == OpOf(e, id)
  {
    assert [e][..0] == [];
  }

  lemma UntilStartFront(e: Logged, rest: seq<Logged>, local: int)
    ensures UntilStart([e] + rest, local) == if Starts(e, local) then [] else [e] + UntilStart(rest, local)
  {
    assert ([e] + rest)[1..] == rest;
  }

  lemma OneEmitted(c: Client, call: Call, e: Logged, local: int)
    requires local < 0 && Emits(c, call) == [e]
    ensures Starts(e, local) <==> Reuses(c, call, local)
    ensures OpOf(e, local) == Meant(call, local)
  {
  }

  /** One call: it reuses the id exactly if it logs a start of it, and otherwise logs what it
      means to write under it, whether or not the database was reachable. */
  lemma EmitsWhatWasMeant(c: Client, call: Call, rest: seq<Logged>, local: int)
    requires local < 0
    ensures OpsOf(UntilStart(Emits(c, call) + rest, local), local)
         == if Reuses(c, call, local) then [] else Meant(call, local) + OpsOf(UntilStart(rest, local), local)
  {
    var events := Emits(c, call);
    if events == [] {
      assert events + rest == rest;
    } else {
      var e := events[0];
      assert events == [e];
      OneEmitted(c, call, e, local);
      UntilStartFront(e, rest, local);
      OpsOfConcat([e], UntilStart(rest, local), local);
      OpsOfOne(e, local);
    }
  }

  lemma {:induction false} EmittedIsMeant(normalize: Normalize, c: Client, calls: seq<Call>, local: int)
    requires local < 0
    ensures OpsOf(UntilStart(Emitted(normalize, c, calls), local), local) == MeantUntilReuse(normalize, c, calls, local)
    decreases |calls|
  {
    if calls != [] {
      var next := AfterCall(normalize, c, calls[0]);
      EmittedIsMeant(normalize, next, calls[1..], local);
      EmitsWhatWasMeant(c, calls[0], Emitted(normalize, next, calls[1..]), local);
    }
  }

  lemma IntendedSnoc(calls: seq<Call>, last: Call, id: int)
    ensures Intended(calls + [last], id) == Intended(calls, id) + Meant(last, id)
  {
    assert (calls + [last])[..|calls|] == calls;
  }

  lemma {:induction false} IntendedAhead(first: Call, rest: seq<Call>, id: int)
    ensures Intended([first] + rest, id) == Meant(first, id) + Intended(rest, id)
    decreases |rest|
  {
    if rest == [] {
      IntendedSnoc([], first, id);
      assert [first] + rest == [] + [first];
    } else {
      var before, last := rest[..|rest| - 1], rest[|rest| - 1];
      IntendedAhead(first, before, id);
      IntendedSnoc([first] + before, last, id);
      IntendedSnoc(before, last, id);
      Regrouped([first], before, [last]);
      assert rest == before + [last];
      Regrouped(Meant(first, id), Intended(before, id), Meant(last, id));
    }
  }

  lemma Regrouped<T>(a: seq<T>, b: seq<T>, c: seq<T>)
    ensures (a + b) + c == a + (b + c)
  {
  }

  lemma IntendedFront(calls: seq<Call>, id: int)
    requires calls != []
    ensures Intended(calls, id) == Meant(calls[0], id) + Intended(calls[1..], id)
  {
    IntendedAhead(calls[0], calls[1..], id);
    assert calls == [calls[0]] + calls[1..];
  }

  /** A process that is not restarted never reuses an id, so all that it goes on to write under
      it is meant for the one investigation. */
  lemma {:induction false} NothingReused(normalize: Normalize, c: Client, calls: seq<Call>, local: int)
    requires c.counter <= local && forall k :: 0 <= k < |calls| ==> !calls[k].Restart?
    ensures MeantUntilReuse(normalize, c, calls, local) == Intended(calls, local)
    decreases |calls|
  {
    if calls != [] {
      assert !calls[0].Restart?;
      assert forall k :: 0 <= k < |calls[1..]| ==> calls[1..][k] == calls[k + 1];
      NothingReused(normalize, AfterCall(normalize, c, calls[0]), calls[1..], local);
      IntendedFront(calls, local);
    }
  }

  lemma SessionLogShape(normalize: Normalize, c: Client, calls: seq<Call>, i: nat, before: Client, started: Client)
    requires StartedOffline(calls, i)
    requires before == AfterCalls(normalize, c, calls[..i]) && started == AfterCall(normalize, before, calls[i])
    ensures AfterCalls(normalize, c, calls).log
         == before.log + Emits(before, calls[i]) + Emitted(normalize, started, calls[i + 1..])
  {
    assert calls[..i + 1][..i] == calls[..i];
    assert AfterCalls(normalize, c, calls[..i + 1]) == started;
    assert calls == calls[..i + 1] + calls[i + 1..];
    AfterCallsConcat(normalize, c, calls[..i + 1], calls[i + 1..]);
    LogIsEmitted(normalize, started, calls[i + 1..]);
  }

  lemma LogFromStart(before: Client, call: Call, rest: seq<Logged>, log: seq<Logged>, local: int)
    requires before.counter <= -1 && call.Start? && !call.reaches && local == before.counter - 1
    requires log == before.log + Emits(before, call) + rest
    ensures StartsAt(log, |before.log|, local)
    ensures log[|before.log|].data == StartInvestigation(call.trigger, call.alertId, local)
    ensures log[|before.log| + 1..] == rest
  {
    assert log[|before.log|] == Emits(before, call)[0];
  }

  /** The log of a session holds, from the position of a buffered start up to the next under the
      same id, exactly what the agent meant to write to that investigation. */
  lemma SessionLog(normalize: Normalize, c: Client, calls: seq<Call>, i: nat, before: Client, started: Client,
                   log: seq<Logged>, local: int, meant: seq<Op>)
    requires StartedOffline(calls, i) && before.counter <= -1 && local == before.counter - 1
    requires before == AfterCalls(normalize, c, calls[..i]) && started == AfterCall(normalize, before, calls[i])
    requires log == AfterCalls(normalize, c, calls).log
    requires meant == MeantUntilReuse(normalize, started, calls[i + 1..], local)
    ensures StartsAt(log, |before.log|, local)
    ensures log[|before.log|].data == StartInvestigation(calls[i].trigger, calls[i].alertId, local)
    ensures OpsOf(UntilStart(log[|before.log| + 1..], local), local) == meant
  {
    var rest := Emitted(normalize, started, calls[i + 1..]);
    SessionLogShape(normalize, c, calls, i, before, started);
    EmittedIsMeant(normalize, started, calls[i + 1..], local);
    LogFromStart(before, calls[i], rest, log, local);
  }

  /** Row `row` of `t` is as making the writes `meant` directly to `online` would have left it, up
      to its id and, for a finishing update sent without a completion time, that time. */
  predicate AsIfOnline(normalize: Normalize, t: Store, row: int, online: Database,
                       trigger: string, alertId: Option<string>, meant: seq<Op>)
  {
    var direct := Online(normalize, online, trigger, alertId, meant);
    && row in t.db.rows && online.nextId in direct.rows
    && Unstamped(ViewOf(t.db, row)) == Unstamped(ViewOf(direct, online.nextId))
    && ((forall j :: 0 <= j < |meant| ==> CarriesItsStamp(normalize, meant[j]))
        ==> ViewOf(t.db, row) == ViewOf(direct, online.nextId))
  }

  lemma LogAsIfOnline(normalize: Normalize, s: Store, log: seq<Logged>, k: nat, local: int, online: Database,
                      trigger: string, alertId: Option<string>, meant: seq<Op>)
    requires WellFormed(s) && StartsAt(log, k, local) && PositiveIdsBelow(log, s.db.nextId)
    requires online.nextId > 0 && NoStrayEvents(online)
    requires log[k].data == StartInvestigation(trigger, alertId, local)
    requires meant == OpsOf(UntilStart(log[k + 1..], local), local)
    ensures AsIfOnline(normalize, ReplayAll(normalize, s, log), RowOf(normalize, s, log, k), online, trigger, alertId, meant)
  {
    OfflineRefinesOnline(normalize, s, log, k, local, online);
  }

  /** A session, restarts of the process among its calls, in which call `i` started an
      investigation offline and so returned `local`: the log it leaves, the place `k` of that start
      in the log, and what the agent went on to write that was meant for the investigation. */
  ghost predicate Session(normalize: Normalize, c: Client, calls: seq<Call>, i: nat,
                          log: seq<Logged>, k: nat, local: int, meant: seq<Op>) {
    && StartedOffline(calls, i)
    && var before := AfterCalls(normalize, c, calls[..i]);
       && before.counter <= -1 && local == before.counter - 1 && k == |before.log|
       && log == AfterCalls(normalize, c, calls).log
       && meant == MeantUntilReuse(normalize, AfterCall(normalize, before, calls[i]), calls[i + 1..], local)
  }

  lemma SessionInLog(normalize: Normalize, c: Client, calls: seq<Call>, i: nat,
                     log: seq<Logged>, k: nat, local: int, meant: seq<Op>)
    requires Session(normalize, c, calls, i, log, k, local, meant)
    ensures i < |calls| && calls[i].Start? && StartsAt(log, k, local)
    ensures log[k].data == StartInvestigation(calls[i].trigger, calls[i].alertId, local)
    ensures OpsOf(UntilStart(log[k + 1..], local), local) == meant
  {
    var before := AfterCalls(normalize, c, calls[..i]);
    SessionLog(normalize, c, calls, i, before, AfterCall(normalize, before, calls[i]), log, local, meant);
  }

  /** The whole story. Take any session, any start made offline in it, and any store the
      session's log is replayed into later by a pass in which no replay fails: the investigation
      ends up in a row of its own, as if the writes meant for it had been made online. */
  lemma SessionAsIfOnline(normalize: Normalize, c: Client, calls: seq<Call>, i: nat,
                          log: seq<Logged>, k: nat, local: int, meant: seq<Op>, s: Store, online: Database)
    requires Session(normalize, c, calls, i, log, k, local, meant)
    requires WellFormed(s) && PositiveIdsBelow(log, s.db.nextId)
    requires online.nextId > 0 && NoStrayEvents(online)
    ensures i < |calls| && calls[i].Start? && k < |log|
    ensures AsIfOnline(normalize, ReplayAll(normalize, s, log), RowOf(normalize, s, log, k), online,
                       calls[i].trigger, calls[i].alertId, meant)
  {
    SessionInLog(normalize, c, calls, i, log, k, local, meant);
    LogAsIfOnline(normalize, s, log, k, local, online, calls[i].trigger, calls[i].alertId, meant);
  }

  /** In a process that is not restarted, what was meant for an investigation started offline is
      all that is written under its id from then on. */
  lemma OneProcessMeansAll(normalize: Normalize, calls: seq<Call>, i: nat, before: Client, started: Client)
    requires StartedOffline(calls, i) && started == AfterCall(normalize, before, calls[i])
    requires NoRestart(calls, i, |calls|)
    ensures MeantUntilReuse(normalize, started, calls[i + 1..], before.counter - 1)
         == Intended(calls[i + 1..], before.counter - 1)
  {
    var rest := calls[i + 1..];
    assert forall k :: 0 <= k < |rest| ==> rest[k] == calls[i + 1 + k];
    NothingReused(normalize, started, rest, before.counter - 1);
  }
}
