/** The write path and the sync pass as the program runs them (agent/knowledge_base.py,
    `ResilientKnowledgeBase`): which writes reach the database, which become events, and what
    one pass over the events does. */
module ResilientKnowledgeBase {
  import opened Wrappers
  import opened LocalBuffer
  import opened InvestigationStore
  import opened Replay
  import opened OfflineSession
  import Outbox

  // ---- a pass with failures ---------------------------------------------------

  /** Where a pass stands: `next` events handed over, the last of them numbered `syncedUpTo`. */
  datatype Progress = Progress(store: Store, next: nat, syncedUpTo: nat, failures: nat, broken: bool)

  /** One turn of the loop of `_sync_buffered_events`; replaying an event whose number is in
      `raises` fails and changes nothing. */
  function PassNext(normalize: Normalize, p: Progress, e: Logged, raises: set<nat>): Progress {
    if p.broken then p
    else if e.sequence in raises then
      var failures := p.failures + 1;
      Progress(p.store, p.next + 1, e.sequence, failures, failures >= Outbox.FAILURES_BEFORE_BREAK)
    else Progress(AfterReplay(normalize, p.store, e), p.next + 1, e.sequence, 0, false)
  }

  function PassOver(normalize: Normalize, s: Store, events: seq<Logged>, raises: set<nat>): Progress {
    if events == [] then Progress(s, 0, 0, 0, false)
    else PassNext(normalize, PassOver(normalize, s, events[..|events| - 1], raises), events[|events| - 1], raises)
  }

  lemma PassSnoc(normalize: Normalize, s: Store, events: seq<Logged>, raises: set<nat>, i: nat)
    requires i < |events|
    ensures PassOver(normalize, s, events[..i + 1], raises)
         == PassNext(normalize, PassOver(normalize, s, events[..i], raises), events[i], raises)
  {
    assert events[..i + 1][..i] == events[..i];
  }

  lemma {:induction false} PassWithoutFailures(normalize: Normalize, s: Store, events: seq<Logged>, raises: set<nat>)
    requires forall i :: 0 <= i < |events| ==> events[i].sequence !in raises
    ensures PassOver(normalize, s, events, raises)
         == Progress(ReplayAll(normalize, s, events), |events|,
                     if events == [] then 0 else events[|events| - 1].sequence, 0, false)
    decreases |events|
  {
    if events != [] {
      PassWithoutFailures(normalize, s, events[..|events| - 1], raises);
    }
  }

  /** The part of the pass that an earlier break leaves untouched. */
  lemma {:induction false} PassStopsAtBreak(normalize: Normalize, s: Store, events: seq<Logged>, raises: set<nat>, n: nat)
    requires n <= |events| && PassOver(normalize, s, events[..n], raises).broken
    ensures PassOver(normalize, s, events, raises) == PassOver(normalize, s, events[..n], raises)
    decreases |events|
  {
    if n == |events| {
      assert events[..n] == events;
    } else {
      assert events[..|events| - 1][..n] == events[..n];
      PassStopsAtBreak(normalize, s, events[..|events| - 1], raises, n);
    }
  }

  /** The last three of the first `n` events all raise. */
  predicate ThreeFailed(events: seq<Logged>, raises: set<nat>, n: nat) {
    3 <= n <= |events| && forall i :: n - 3 <= i < n ==> events[i].sequence in raises
  }

  /** How many events, from the `from`th on, a pass hands over: all, or up to the third failure in
      a row. */
  function PassLength(events: seq<Logged>, raises: set<nat>, from: nat): (n: nat)
    requires from <= |events|
    ensures from <= n <= |events|
    ensures forall m :: from <= m < n ==> !ThreeFailed(events, raises, m)
    ensures n < |events| ==> ThreeFailed(events, raises, n)
    decreases |events| - from
  {
    if from == |events| || ThreeFailed(events, raises, from) then from else PassLength(events, raises, from + 1)
  }

  /** The events whose replay does not raise, in order. */
  function Sound(events: seq<Logged>, raises: set<nat>): seq<Logged> {
    if events == [] then []
    else Sound(events[..|events| - 1], raises)
         + (if events[|events| - 1].sequence in raises then [] else [events[|events| - 1]])
  }

  /** Where a pass stands after `n` events, before any break. */
  ghost predicate Underway(normalize: Normalize, s: Store, events: seq<Logged>, raises: set<nat>, n: nat, p: Progress) {
    && n <= |events| && p.next == n
    && p.store == ReplayAll(normalize, s, Sound(events[..n], raises))
    && p.syncedUpTo == (if n == 0 then 0 else events[n - 1].sequence)
    && p.failures <= n && (forall i :: n - p.failures <= i < n ==> events[i].sequence in raises)
    && (p.failures < n ==> events[n - p.failures - 1].sequence !in raises)
    && (p.broken <==> p.failures >= 3)
  }

  lemma UnderwayNext(normalize: Normalize, s: Store, events: seq<Logged>, raises: set<nat>, n: nat, p: Progress)
    requires n < |events| && Underway(normalize, s, events, raises, n, p) && !p.broken
    ensures Underway(normalize, s, events, raises, n + 1, PassNext(normalize, p, events[n], raises))
  {
    assert events[..n + 1][..n] == events[..n];
    var sound := Sound(events[..n], raises);
    if events[n].sequence in raises {
      assert sound + [] == sound;
    } else {
      assert (sound + [events[n]])[..|sound|] == sound;
    }
  }

  lemma UnderwayBroken(normalize: Normalize, s: Store, events: seq<Logged>, raises: set<nat>, n: nat, p: Progress)
    requires Underway(normalize, s, events, raises, n, p)
    ensures p.broken <==> ThreeFailed(events, raises, n)
  {
    if p.failures < 3 && n >= 3 {
      assert events[n - p.failures - 1].sequence !in raises;
    }
  }

  lemma {:induction false} PassUnderway(normalize: Normalize, s: Store, events: seq<Logged>, raises: set<nat>, n: nat)
    requires n <= PassLength(events, raises, 0)
    ensures Underway(normalize, s, events, raises, n, PassOver(normalize, s, events[..n], raises))
    decreases n
  {
    if n == 0 {
      assert events[..0] == [];
    } else {
      PassUnderway(normalize, s, events, raises, n - 1);
      PassSnoc(normalize, s, events, raises, n - 1);
      var p := PassOver(normalize, s, events[..n - 1], raises);
      UnderwayBroken(normalize, s, events, raises, n - 1, p);
      assert !ThreeFailed(events, raises, n - 1);
      UnderwayNext(normalize, s, events, raises, n - 1, p);
    }
  }

  /** What a pass does, whatever fails in it: it hands over the events up to the third failure in
      a row, or all of them; every one of those that does not raise is replayed, in order, and
      none other; and the last handed over is how far the log counts as synced. */
  lemma PassExactly(normalize: Normalize, s: Store, events: seq<Logged>, raises: set<nat>)
    ensures var p := PassOver(normalize, s, events, raises);
            var n := PassLength(events, raises, 0);
            && p.next == n
            && p.store == ReplayAll(normalize, s, Sound(events[..n], raises))
            && p.syncedUpTo == (if n == 0 then 0 else events[n - 1].sequence)
            && (p.broken <==> ThreeFailed(events, raises, n))
  {
    var n := PassLength(events, raises, 0);
    PassUnderway(normalize, s, events, raises, n);
    UnderwayBroken(normalize, s, events, raises, n, PassOver(normalize, s, events[..n], raises));
    if n < |events| {
      PassStopsAtBreak(normalize, s, events, raises, n);
    } else {
      assert events[..n] == events;
    }
  }

  ghost function Handing(events: seq<Logged>, raises: set<nat>, n: nat): seq<Outbox.Step<Payload>>
    requires n <= |events|
  {
    seq(n, i requires 0 <= i < n => Outbox.Step<Payload>.Replay(events[i].sequence in raises))
  }

  /** The outbox after the part of a pass that led to `p`. */
  ghost function HandedOver(s: Outbox.System<Payload>, all: seq<Logged>, p: Progress): Outbox.System<Payload>
    requires p.next <= |all|
  {
    s.(pass := Some(Outbox.Pass(all, p.next, p.failures, p.broken)), replays := s.replays + all[..p.next])
  }

  lemma HandNext(s: Outbox.System<Payload>, all: seq<Logged>, raises: set<nat>, p: Progress, q: Progress)
    requires p.next < |all| && !p.broken
    requires Outbox.After(s, Handing(all, raises, p.next)) == HandedOver(s, all, p)
    requires q.next == p.next + 1
    requires q.failures == if all[p.next].sequence in raises then p.failures + 1 else 0
    requires q.broken == (q.failures >= Outbox.FAILURES_BEFORE_BREAK)
    ensures Outbox.After(s, Handing(all, raises, q.next)) == HandedOver(s, all, q)
  {
    var n := p.next;
    assert Handing(all, raises, n + 1)[..n] == Handing(all, raises, n);
    assert s.replays + all[..n] + [all[n]] == s.replays + all[..n + 1];
  }

  /** `p`, reached after `n` turns of the loop, is where the outbox gets with the same replays. */
  ghost predicate Matches(s: Outbox.System<Payload>, all: seq<Logged>, raises: set<nat>, p: Progress, n: nat) {
    && p.next <= n <= |all| && (p.next < n ==> p.broken)
    && p.syncedUpTo == (if p.next == 0 then 0 else all[p.next - 1].sequence)
    && Outbox.After(s, Handing(all, raises, p.next)) == HandedOver(s, all, p)
  }

  lemma MatchesNext(normalize: Normalize, s: Outbox.System<Payload>, all: seq<Logged>, raises: set<nat>, p: Progress, n: nat)
    requires s.pass == Some(Outbox.Pass(all, 0, 0, false))
    requires n < |all| && Matches(s, all, raises, p, n)
    ensures Matches(s, all, raises, PassNext(normalize, p, all[n], raises), n + 1)
  {
    if !p.broken {
      HandNext(s, all, raises, p, PassNext(normalize, p, all[n], raises));
    }
  }

  /** The loop is the outbox's replay steps: same events handed over, same count of failures in
      a row, same break. */
  lemma {:induction false} PassIsOutboxSteps(normalize: Normalize, store: Store, all: seq<Logged>, n: nat,
                                             raises: set<nat>, s: Outbox.System<Payload>)
    requires s.pass == Some(Outbox.Pass(all, 0, 0, false)) && n <= |all|
    ensures Matches(s, all, raises, PassOver(normalize, store, all[..n], raises), n)
    decreases n
  {
    if n == 0 {
      assert s.replays + all[..0] == s.replays;
    } else {
      PassIsOutboxSteps(normalize, store, all, n - 1, raises, s);
      PassSnoc(normalize, store, all, raises, n - 1);
      MatchesNext(normalize, s, all, raises, PassOver(normalize, store, all[..n - 1], raises), n - 1);
    }
  }

  // ---- the log grows by one event at a time ---------------------------------------

  ghost predicate BufferOk(b: Buffer<Payload>) {
    && Outbox.Spread(OnDisk(b.dir))
    && (forall e :: e in OnDisk(b.dir) ==> 1 <= e.sequence <= b.sequence)
    && Outbox.HandleLive(b)
  }

  lemma SameLast(a: seq<Logged>, b: seq<Logged>)
    requires Ascending(a) && Ascending(b) && Outbox.Spread(a) && multiset(a) == multiset(b)
    requires a != [] && b != []
    ensures a[|a| - 1] == b[|b| - 1]
  {
    var x, y := a[|a| - 1], b[|b| - 1];
    assert x in multiset(b) && y in multiset(a);
    var i :| 0 <= i < |b| && b[i] == x;
    var j :| 0 <= j < |a| && a[j] == y;
    assert x.sequence <= y.sequence && y.sequence <= x.sequence;
  }

  lemma WithoutLast(a: seq<Logged>)
    requires a != []
    ensures a == a[..|a| - 1] + [a[|a| - 1]]
    ensures multiset(a[..|a| - 1]) == multiset(a) - multiset{a[|a| - 1]}
    ensures Ascending(a) ==> Ascending(a[..|a| - 1])
    ensures Outbox.Spread(a) ==> Outbox.Spread(a[..|a| - 1])
  {
    assert a == a[..|a| - 1] + [a[|a| - 1]];
  }

  lemma {:induction false} SortedIsUnique(a: seq<Logged>, b: seq<Logged>)
    requires |a| == |b| && multiset(a) == multiset(b)
    requires Ascending(a) && Ascending(b) && Outbox.Spread(a)
    ensures a == b
    decreases |a|
  {
    if a != [] {
      SameLast(a, b);
      WithoutLast(a);
      WithoutLast(b);
      SortedIsUnique(a[..|a| - 1], b[..|b| - 1]);
    }
  }

  lemma NewestSortsLast(disk: seq<Logged>, e: Logged, after: seq<Logged>)
    requires Outbox.Grown(disk, e, after) && Outbox.Spread(disk)
    requires forall i :: 0 <= i < |disk| ==> disk[i].sequence < e.sequence
    ensures SortBySequence(after) == SortBySequence(disk) + [e]
  {
    SortBySequenceCorrect(disk);
    SortBySequenceCorrect(after);
    NewestBehind(disk, SortBySequence(disk), e);
    SameSize(SortBySequence(disk) + [e], SortBySequence(after));
    SortedIsUnique(SortBySequence(disk) + [e], SortBySequence(after));
  }

  lemma SameSize(a: seq<Logged>, b: seq<Logged>)
    requires multiset(a) == multiset(b)
    ensures |a| == |b|
  {
    assert |multiset(a)| == |a| && |multiset(b)| == |b|;
  }

  lemma NewestBehind(disk: seq<Logged>, sorted: seq<Logged>, e: Logged)
    requires Outbox.Spread(disk) && Ascending(sorted) && multiset(sorted) == multiset(disk)
    requires forall i :: 0 <= i < |disk| ==> disk[i].sequence < e.sequence
    ensures Ascending(sorted + [e]) && Outbox.Spread(sorted + [e])
    ensures multiset(sorted + [e]) == multiset(disk) + multiset{e}
  {
    Outbox.SpreadIsAboutContents(disk, sorted);
    forall i | 0 <= i < |sorted|
      ensures sorted[i].sequence < e.sequence
    {
      assert sorted[i] in multiset(disk);
    }
  }

  lemma PendingNumbers(b: Buffer<Payload>)
    requires BufferOk(b)
    ensures forall i :: 0 <= i < |Pending(b.dir)| ==> Pending(b.dir)[i].sequence >= 1
  {
    SortBySequenceCorrect(OnDisk(b.dir));
    forall i | 0 <= i < |Pending(b.dir)|
      ensures Pending(b.dir)[i].sequence >= 1
    {
      assert Pending(b.dir)[i] in multiset(OnDisk(b.dir));
    }
  }

  lemma WriteKeepsBufferOk(b: Buffer<Payload>, e: Logged, name: nat, full: bool)
    requires BufferOk(b) && e.sequence == b.sequence + 1
    ensures BufferOk(AfterWrite(AfterAllocate(b), e, name, full))
  {
    var after := AfterWrite(AfterAllocate(b), e, name, full);
    Outbox.WriteGrows(AfterAllocate(b), e, name, full);
    Outbox.GrownSpread(OnDisk(b.dir), e, OnDisk(after.dir));
    forall x | x in OnDisk(after.dir)
      ensures x in OnDisk(b.dir) || x == e
    {
      assert x in multiset(OnDisk(after.dir));
    }
  }

  /** A freshly numbered event goes to the end of what is pending. */
  lemma PendingGrows(b: Buffer<Payload>, e: Logged, name: nat, full: bool)
    requires BufferOk(b) && e.sequence == b.sequence + 1
    ensures Pending(AfterWrite(AfterAllocate(b), e, name, full).dir) == Pending(b.dir) + [e]
  {
    Outbox.WriteGrows(AfterAllocate(b), e, name, full);
    NewestSortsLast(OnDisk(b.dir), e, OnDisk(AfterWrite(AfterAllocate(b), e, name, full).dir));
  }

  lemma MarkKeepsBufferOk(b: Buffer<Payload>, upTo: nat)
    requires BufferOk(b)
    ensures BufferOk(AfterMarkSynced(b, upTo))
  {
    Outbox.UnsyncedContents(b.dir, upTo);
    Outbox.MarkKeepsHandle(b, upTo);
  }

  lemma MaxIsBounded(a: seq<Logged>, b: seq<Logged>)
    requires multiset(a) == multiset(b)
    ensures MaxSequence(a) <= MaxSequence(b)
  {
    MaxSequenceBounds(a);
    MaxSequenceBounds(b);
    if a != [] {
      var i :| 0 <= i < |a| && a[i].sequence == MaxSequence(a);
      assert a[i] in multiset(b);
      var k :| 0 <= k < |b| && b[k] == a[i];
      assert b[k].sequence <= MaxSequence(b);
    }
  }

  /** A new process on the files that an old one left stands where a restart in a session does. */
  lemma RestartIsNewProcess(normalize: Normalize, c: Client, dir: seq<LogFile<Payload>>)
    requires c.log == Pending(dir)
    ensures AfterCall(normalize, c, Restart) == Client(c.db, -1, LocalBuffer.Restarted(dir).sequence, Pending(dir))
  {
    SortBySequenceCorrect(OnDisk(dir));
    MaxIsBounded(Pending(dir), OnDisk(dir));
    MaxIsBounded(OnDisk(dir), Pending(dir));
  }

  lemma StartUnfolds(normalize: Normalize, c: Client, reaches: bool, trigger: string, alertId: Option<string>, at: int)
    ensures AfterCall(normalize, c, Start(reaches, trigger, alertId, at))
         == if reaches then c.(db := AfterStart(c.db, trigger, alertId))
            else Client(c.db, c.counter - 1, c.sequence + 1,
                        c.log + [Numbered(c, Payload.StartInvestigation(trigger, alertId, c.counter - 1), at)])
  {
  }

  // ---- the program -------------------------------------------------------------

  class ResilientKnowledgeBase {
    const normalize: Normalize
    const buffer: LocalEventBuffer<Payload>
    var db: Database
    var localToDb: map<int, int>
    var localIdCounter: int

    ghost predicate Valid()
      reads this, buffer
    {
      BufferOk(buffer.View()) && localIdCounter <= -1
    }

    function Stored(): Store
      reads this
    {
      Store(db, localToDb)
    }

    function Outstanding(): seq<Logged>
      reads this, buffer
    {
      Pending(buffer.dir)
    }

    function AsClient(): Client
      reads this, buffer
    {
      Client(db, localIdCounter, buffer.sequence, Outstanding())
    }

    constructor (normalize: Normalize, db: Database, buffer: LocalEventBuffer<Payload>)
      requires BufferOk(buffer.View())
      ensures Valid() && this.buffer == buffer && this.normalize == normalize
      ensures Stored() == Store(db, map[]) && localIdCounter == -1
      ensures AsClient() == Client(db, -1, buffer.sequence, Pending(buffer.dir))
    {
      this.normalize, this.buffer, this.db := normalize, buffer, db;
      localToDb, localIdCounter := map[], -1;
    }

    /** Append one payload to the outbox at time `now`. */
    method Buffered(data: Payload, now: int, name: nat, full: bool)
      requires Valid()
      modifies buffer
      ensures Valid()
      ensures buffer.sequence == old(buffer.sequence) + 1
      ensures Outstanding() == old(Outstanding()) + [BufferedEvent(data, now, old(buffer.sequence) + 1)]
    {
      WriteKeepsBufferOk(buffer.View(), BufferedEvent(data, now, buffer.sequence + 1), name, full);
      PendingGrows(buffer.View(), BufferedEvent(data, now, buffer.sequence + 1), name, full);
      var _ := buffer.BufferEvent(data, now, name, full);
    }

    /** `healthy` is what the monitor says, `fails` whether the database call would raise. */
    method StartInvestigation(healthy: bool, fails: bool, trigger: string, alertId: Option<string>,
                              now: int, name: nat, full: bool) returns (id: int)
      requires Valid()
      modifies this, buffer
      ensures Valid()
      ensures AsClient() == AfterCall(normalize, old(AsClient()), Start(healthy && !fails, trigger, alertId, now))
      ensures id == if healthy && !fails then old(db.nextId) else old(localIdCounter) - 1
      ensures localToDb == old(localToDb)
    {
      StartUnfolds(normalize, AsClient(), healthy && !fails, trigger, alertId, now);
      if healthy && !fails {
        id := db.nextId;
        db := AfterStart(db, trigger, alertId);
      } else {
        localIdCounter := localIdCounter - 1;
        id := localIdCounter;
        Buffered(Payload.StartInvestigation(trigger, alertId, id), now, name, full);
      }
    }

    method RecordInvestigationEvent(healthy: bool, fails: bool, id: int, rec: InvestigationStore.Record, now: int, name: nat, full: bool)
      requires Valid()
      modifies this`db, buffer
      ensures Valid()
      ensures AsClient() == AfterCall(normalize, old(AsClient()), Call.Record(healthy && !fails, id, rec, now))
    {
      if healthy && id > 0 && !fails {
        db := AfterRecord(db, id, rec);
      } else {
        Buffered(InvestigationEvent(id, rec), now, name, full);
      }
    }

    method UpdateInvestigation(healthy: bool, fails: bool, id: int, u: Update, now: int, name: nat, full: bool)
      requires Valid()
      modifies this`db, buffer
      ensures Valid()
      ensures AsClient() == AfterCall(normalize, old(AsClient()), Change(healthy && !fails, id, u, now))
    {
      if healthy && id > 0 && !fails {
        db := AfterUpdate(normalize, db, id, u);
      } else {
        Buffered(Payload.UpdateInvestigation(id, u), now, name, full);
      }
    }

    method ReplayEvent(e: Logged)
      modifies this`db, this`localToDb
      ensures Stored() == AfterReplay(normalize, old(Stored()), e)
    {
      match e.data {
        case StartInvestigation(trigger, alertId, localId) =>
          var dbId := db.nextId;
          db := AfterStart(db, trigger, alertId);
          localToDb := localToDb[localId := dbId];
        case InvestigationEvent(id, rec) =>
          var target := Resolve(localToDb, id);
          if target.Some? && target.value > 0 {
            db := AfterRecord(db, target.value, rec);
          }
        case UpdateInvestigation(id, u) =>
          var target := Resolve(localToDb, id);
          if target.Some? && target.value > 0 {
            db := AfterUpdate(normalize, db, target.value, AsReplayed(normalize, u, e.timestamp));
          }
        case RecordDrift(drift) =>
          db := db.(drifts := db.drifts + [drift]);
        case UpdateBaseline(service, expected) =>
          db := db.(baselines := db.baselines[service := expected]);
      }
    }

    /** The loop of a pass, over the events that were pending; the number of the last handed over. */
    method HandOver(events: seq<Logged>, raises: set<nat>) returns (syncedUpTo: nat)
      modifies this`db, this`localToDb
      ensures var p := PassOver(normalize, old(Stored()), events, raises);
              Stored() == p.store && syncedUpTo == p.syncedUpTo
    {
      ghost var store := Stored();
      var consecutiveFailures := 0;
      syncedUpTo := 0;
      var i := 0;
      while i < |events|
        invariant 0 <= i <= |events|
        invariant PassOver(normalize, store, events[..i], raises)
               == Progress(Stored(), i, syncedUpTo, consecutiveFailures, false)
      {
        PassSnoc(normalize, store, events, raises, i);
        var e := events[i];
        if e.sequence !in raises {
          ReplayEvent(e);
          syncedUpTo, consecutiveFailures := e.sequence, 0;
        } else {
          consecutiveFailures := consecutiveFailures + 1;
          syncedUpTo := e.sequence;
          if consecutiveFailures >= Outbox.FAILURES_BEFORE_BREAK {
            PassStopsAtBreak(normalize, store, events, raises, i + 1);
            return;
          }
        }
        i := i + 1;
      }
      assert events[..i] == events;
    }

    /** One pass with no writer in the way. `raises` are the numbers of the events whose replay
        fails. */
    method SyncBufferedEvents(raises: set<nat>)
      requires Valid()
      modifies this`db, this`localToDb, buffer
      ensures Valid()
      ensures var p := PassOver(normalize, old(Stored()), old(Outstanding()), raises);
              && Stored() == p.store
              && buffer.View() == (if p.syncedUpTo > 0 then AfterMarkSynced(old(buffer.View()), p.syncedUpTo)
                                   else old(buffer.View()))
      ensures var events, n := old(Outstanding()), PassLength(old(Outstanding()), raises, 0);
              && Stored() == ReplayAll(normalize, old(Stored()), Sound(events[..n], raises))
              && (n > 0 ==> buffer.View() == AfterMarkSynced(old(buffer.View()), events[n - 1].sequence))
              && (n == 0 ==> events == [] && buffer.View() == old(buffer.View()))
    {
      var events := buffer.GetPendingEvents();
      PassExactly(normalize, Stored(), events, raises);
      PendingNumbers(buffer.View());
      var syncedUpTo := HandOver(events, raises);
      if syncedUpTo > 0 {
        MarkKeepsBufferOk(buffer.View(), syncedUpTo);
        buffer.MarkSynced(syncedUpTo);
      }
    }
  }
}
