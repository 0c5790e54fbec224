/** Writers and the sync thread over one event log (agent/local_buffer.py with the sync pass of
    agent/knowledge_base.py, `_sync_buffered_events`).

    A sync pass is three kinds of step: read the pending events, hand them to `_replay_event`
    one at a time, delete the files that are done. Writers take a number and append a line
    under two different locks, so anything may happen between those two steps, and both may
    fall anywhere inside a pass.
  */
module Outbox {
  import opened Wrappers
  import opened LocalBuffer

  /** A pass in progress: `next` events have been handed over. */
  datatype Pass<T> = Pass(events: seq<BufferedEvent<T>>, next: nat, failures: nat, broken: bool)

  /** `inflight` are numbered events not yet written; `issued`, `buffered` and `replays` record
      what was ever numbered, what was ever written, and what was handed to replay, in order. */
  datatype System<T(==)> = System(
    buffer: Buffer<T>,
    inflight: set<BufferedEvent<T>>,
    pass: Option<Pass<T>>,
    issued: set<BufferedEvent<T>>,
    buffered: set<BufferedEvent<T>>,
    replays: seq<BufferedEvent<T>>)

  datatype Step<T> =
    | Allocate(data: T, timestamp: int)
    | Write(e: BufferedEvent<T>, name: nat, full: bool)
    | Append(data: T, timestamp: int, name: nat, full: bool)
    | Snapshot
    | Replay(raises: bool)
    | Mark
    | Restart

  const FAILURES_BEFORE_BREAK: nat := 3

  ghost function Numbered<T>(s: System<T>, data: T, timestamp: int): BufferedEvent<T> {
    BufferedEvent(data, timestamp, s.buffer.sequence + 1)
  }

  /** The number `_sync_buffered_events` passes to `mark_synced`: the last event handed over. */
  ghost function SyncedUpTo<T>(p: Pass<T>): nat
    requires p.next <= |p.events|
  {
    if p.next == 0 then 0 else p.events[p.next - 1].sequence
  }

  ghost predicate Finished<T>(p: Pass<T>) {
    p.next == |p.events| || p.broken
  }

  /** When a step can happen. An event is told apart by payload, time and number, and no two
      are ever numbered alike with the same time and payload. There is one sync thread. */
  ghost predicate Enabled<T>(s: System<T>, step: Step<T>) {
    match step
    case Allocate(data, ts) => Numbered(s, data, ts) !in s.issued
    case Write(e, _, _) => e in s.inflight
    case Append(data, ts, _, _) => Numbered(s, data, ts) !in s.issued
    case Snapshot => s.pass.None? && Pending(s.buffer.dir) != []
    case Replay(_) => s.pass.Some? && !Finished(s.pass.value) && s.pass.value.next < |s.pass.value.events|
    case Mark => s.pass.Some? && Finished(s.pass.value) && s.pass.value.next <= |s.pass.value.events|
    case Restart => true
  }

  ghost function Allocated<T>(s: System<T>, e: BufferedEvent<T>): System<T> {
    s.(buffer := AfterAllocate(s.buffer), inflight := s.inflight + {e}, issued := s.issued + {e})
  }

  ghost function Written<T>(s: System<T>, e: BufferedEvent<T>, name: nat, full: bool): System<T> {
    s.(buffer := AfterWrite(s.buffer, e, name, full), inflight := s.inflight - {e}, buffered := s.buffered + {e})
  }

  ghost function HandedOver<T>(p: Pass<T>, raises: bool): Pass<T> {
    var failures := if raises then p.failures + 1 else 0;
    p.(next := p.next + 1, failures := failures, broken := failures >= FAILURES_BEFORE_BREAK)
  }

  ghost function Apply<T>(s: System<T>, step: Step<T>): System<T> {
    if !Enabled(s, step) then s
    else
      match step
      case Allocate(data, ts) => Allocated(s, Numbered(s, data, ts))
      case Write(e, name, full) => Written(s, e, name, full)
      case Append(data, ts, name, full) =>
        var e := Numbered(s, data, ts);
        Written(Allocated(s, e), e, name, full)
      case Snapshot => s.(pass := Some(Pass(Pending(s.buffer.dir), 0, 0, false)))
      case Replay(raises) =>
        s.(pass := Some(HandedOver(s.pass.value, raises)), replays := s.replays + [s.pass.value.events[s.pass.value.next]])
      case Mark =>
        var upTo := SyncedUpTo(s.pass.value);
        s.(pass := None, buffer := if upTo > 0 then AfterMarkSynced(s.buffer, upTo) else s.buffer)
      case Restart => s.(buffer := Restarted(s.buffer.dir), inflight := {}, pass := None)
  }

  ghost function After<T>(s: System<T>, run: seq<Step<T>>): System<T> {
    if run == [] then s else Apply(After(s, run[..|run| - 1]), run[|run| - 1])
  }

  ghost function Fresh<T>(): System<T> {
    System(Restarted([]), {}, None, {}, {}, [])
  }

  /** Every event ever written is still on disk or has been handed to replay. */
  ghost predicate NothingVanished<T>(s: System<T>) {
    forall e :: e in s.buffered ==> e in OnDisk(s.buffer.dir) || e in s.replays
  }

  // ---- the directory's contents under each operation ----------------------------

  ghost predicate Spread<T>(events: seq<BufferedEvent<T>>) {
    forall i, j :: 0 <= i < j < |events| ==> events[i].sequence != events[j].sequence
  }

  /** `r` is `s` with one more element somewhere. */
  ghost predicate Grown<T>(s: seq<BufferedEvent<T>>, e: BufferedEvent<T>, r: seq<BufferedEvent<T>>) {
    multiset(r) == multiset(s) + multiset{e}
  }

  lemma {:induction false} CreateOrAppendGrows<T>(dir: seq<LogFile<T>>, name: nat, e: BufferedEvent<T>)
    ensures Grown(OnDisk(dir), e, OnDisk(CreateOrAppend(dir, name, e)))
  {
    if dir == [] || name < dir[0].name {
      assert CreateOrAppend(dir, name, e)[1..] == dir;
    } else if dir[0].name == name {
      assert CreateOrAppend(dir, name, e)[1..] == dir[1..];
    } else {
      CreateOrAppendGrows(dir[1..], name, e);
      assert CreateOrAppend(dir, name, e)[1..] == CreateOrAppend(dir[1..], name, e);
    }
  }

  lemma {:induction false} CreateOrAppendHasFile<T>(dir: seq<LogFile<T>>, name: nat, e: BufferedEvent<T>)
    ensures HasFile(CreateOrAppend(dir, name, e), name)
  {
    var r := CreateOrAppend(dir, name, e);
    if dir != [] && dir[0].name < name {
      CreateOrAppendHasFile(dir[1..], name, e);
      var rest := CreateOrAppend(dir[1..], name, e);
      var i :| 0 <= i < |rest| && rest[i].name == name;
      assert r[i + 1].name == name;
    } else {
      assert r[0].name == name;
    }
  }

  lemma {:induction false} WriteThroughGrows<T>(dir: seq<LogFile<T>>, name: nat, e: BufferedEvent<T>)
    requires HasFile(dir, name)
    ensures Grown(OnDisk(dir), e, OnDisk(WriteThrough(dir, name, e)))
    ensures HasFile(WriteThrough(dir, name, e), name)
  {
    var r := WriteThrough(dir, name, e);
    var i :| 0 <= i < |dir| && dir[i].name == name;
    if dir[0].name == name {
      assert r[0].name == name;
      assert r[1..] == dir[1..];
    } else {
      assert dir[1..][i - 1].name == name;
      WriteThroughGrows(dir[1..], name, e);
      assert r[1..] == WriteThrough(dir[1..], name, e);
      var j :| 0 <= j < |r[1..]| && r[1..][j].name == name;
      assert r[j + 1].name == name;
    }
  }

  /** An open handle always points at a file that is still there. */
  ghost predicate HandleLive<T>(b: Buffer<T>) {
    b.handle ==> b.current.Some? && HasFile(b.dir, b.current.value)
  }

  lemma WriteGrows<T>(b: Buffer<T>, e: BufferedEvent<T>, name: nat, full: bool)
    requires HandleLive(b)
    ensures Grown(OnDisk(b.dir), e, OnDisk(AfterWrite(b, e, name, full).dir))
    ensures HandleLive(AfterWrite(b, e, name, full))
  {
    if b.handle {
      WriteThroughGrows(b.dir, b.current.value, e);
    } else {
      CreateOrAppendGrows(b.dir, name, e);
      CreateOrAppendHasFile(b.dir, name, e);
    }
  }

  lemma GrownSpread<T>(s: seq<BufferedEvent<T>>, e: BufferedEvent<T>, r: seq<BufferedEvent<T>>)
    requires Grown(s, e, r) && Spread(s)
    requires forall i :: 0 <= i < |s| ==> s[i].sequence != e.sequence
    ensures Spread(r)
  {
    assert Spread(s + [e]);
    SpreadIsAboutContents(s + [e], r);
  }

  /** The files `mark_synced` deletes hold only events up to its argument, so every later event
      stays; and what stays was there before, in the same order. */
  lemma {:induction false} UnsyncedContents<T>(dir: seq<LogFile<T>>, upTo: nat)
    ensures forall x :: x in OnDisk(Unsynced(dir, upTo)) ==> x in OnDisk(dir)
    ensures forall x :: x in OnDisk(dir) && x.sequence > upTo ==> x in OnDisk(Unsynced(dir, upTo))
    ensures Spread(OnDisk(dir)) ==> Spread(OnDisk(Unsynced(dir, upTo)))
    ensures forall i :: 0 <= i < |dir| && MaxSequence(dir[i].events) > upTo ==> HasFile(Unsynced(dir, upTo), dir[i].name)
  {
    if dir != [] {
      UnsyncedContents(dir[1..], upTo);
      var rest := Unsynced(dir[1..], upTo);
      var r := Unsynced(dir, upTo);
      MaxSequenceBounds(dir[0].events);
      if MaxSequence(dir[0].events) > upTo {
        assert r[0] == dir[0] && r[1..] == rest;
      }
      if Spread(OnDisk(dir)) {
        SpreadTail(dir[0].events, OnDisk(dir[1..]), OnDisk(rest));
      }
      forall i | 0 <= i < |dir| && MaxSequence(dir[i].events) > upTo
        ensures HasFile(r, dir[i].name)
      {
        if i > 0 {
          assert dir[1..][i - 1] == dir[i];
          var j :| 0 <= j < |rest| && rest[j].name == dir[i].name;
          assert MaxSequence(dir[0].events) > upTo ==> r[j + 1] == rest[j];
        } else {
          assert r[0].name == dir[i].name;
        }
      }
    }
  }

  lemma SpreadTail<T>(a: seq<BufferedEvent<T>>, b: seq<BufferedEvent<T>>, c: seq<BufferedEvent<T>>)
    requires Spread(a + b)
    requires Spread(b) ==> Spread(c)
    requires forall x :: x in c ==> x in b
    ensures Spread(b) && Spread(c) && Spread(a + c)
  {
    forall i, j | 0 <= i < j < |b|
      ensures b[i].sequence != b[j].sequence
    {
      assert (a + b)[|a| + i].sequence != (a + b)[|a| + j].sequence;
    }
    forall i, j | 0 <= i < j < |a + c|
      ensures (a + c)[i].sequence != (a + c)[j].sequence
    {
      if j < |a| {
        assert (a + b)[i].sequence != (a + b)[j].sequence;
      } else if i < |a| {
        assert c[j - |a|] in b;
        var k :| 0 <= k < |b| && b[k] == c[j - |a|];
        assert (a + b)[i].sequence != (a + b)[|a| + k].sequence;
      }
    }
  }

  lemma {:induction false} UnsyncedEmpty<T>(dir: seq<LogFile<T>>, upTo: nat)
    requires forall x :: x in OnDisk(dir) ==> x.sequence <= upTo
    ensures Unsynced(dir, upTo) == []
  {
    if dir != [] {
      MaxSequenceBounds(dir[0].events);
      if dir[0].events != [] {
        var i :| 0 <= i < |dir[0].events| && dir[0].events[i].sequence == MaxSequence(dir[0].events);
        assert dir[0].events[i] in OnDisk(dir);
      }
      UnsyncedEmpty(dir[1..], upTo);
    }
  }

  lemma PendingMember<T>(dir: seq<LogFile<T>>, e: BufferedEvent<T>)
    ensures e in Pending(dir) <==> e in OnDisk(dir)
  {
    SortBySequenceCorrect(OnDisk(dir));
    assert e in multiset(Pending(dir)) <==> e in multiset(OnDisk(dir));
  }

  lemma PendingContents<T>(dir: seq<LogFile<T>>)
    ensures Ascending(Pending(dir))
    ensures forall x :: x in Pending(dir) <==> x in OnDisk(dir)
    ensures |Pending(dir)| == |OnDisk(dir)|
    ensures Spread(OnDisk(dir)) ==> Spread(Pending(dir))
  {
    var disk, pending := OnDisk(dir), Pending(dir);
    SortBySequenceCorrect(disk);
    forall x
      ensures x in pending <==> x in disk
    {
      PendingMember(dir, x);
    }
    assert |multiset(pending)| == |multiset(disk)|;
    if Spread(disk) {
      SpreadIsAboutContents(disk, pending);
    }
  }

  lemma SpreadMeansOnce<T>(a: seq<BufferedEvent<T>>, k: nat)
    requires Spread(a) && k < |a|
    ensures multiset(a)[a[k]] == 1
  {
    assert a == a[..k] + [a[k]] + a[k + 1..];
    assert a[k] !in a[..k] && a[k] !in a[k + 1..];
  }

  lemma EqualMeansTwice<T>(b: seq<BufferedEvent<T>>, i: nat, j: nat)
    requires i < j < |b| && b[i] == b[j]
    ensures multiset(b)[b[i]] >= 2
  {
    assert b == b[..i] + [b[i]] + b[i + 1..j] + [b[j]] + b[j + 1..];
  }

  lemma SpreadIsAboutContents<T>(a: seq<BufferedEvent<T>>, b: seq<BufferedEvent<T>>)
    requires Spread(a) && multiset(a) == multiset(b)
    ensures Spread(b)
  {
    forall i, j | 0 <= i < j < |b|
      ensures b[i].sequence != b[j].sequence
    {
      assert b[i] in multiset(a) && b[j] in multiset(a);
      var k :| 0 <= k < |a| && a[k] == b[i];
      var l :| 0 <= l < |a| && a[l] == b[j];
      SpreadMeansOnce(a, k);
      if b[i] == b[j] {
        EqualMeansTwice(b, i, j);
      }
    }
  }

  // ---- what every run keeps -----------------------------------------------------

  /** Numbers are positive, at most the counter, and no two events on disk or in flight share one. */
  ghost predicate WellNumbered<T>(s: System<T>) {
    && Spread(OnDisk(s.buffer.dir))
    && (forall e :: e in OnDisk(s.buffer.dir) ==> 1 <= e.sequence <= s.buffer.sequence)
    && (forall e :: e in s.inflight ==> 1 <= e.sequence <= s.buffer.sequence)
    && (forall e, f :: e in s.inflight && f in OnDisk(s.buffer.dir) ==> e.sequence != f.sequence)
    && (forall e, f :: e in s.inflight && f in s.inflight && e != f ==> e.sequence != f.sequence)
  }

  ghost predicate WellRecorded<T>(s: System<T>) {
    && (forall e :: e in OnDisk(s.buffer.dir) ==> e in s.buffered)
    && (forall e :: e in s.replays ==> e in s.buffered)
    && s.buffered <= s.issued && s.inflight <= s.issued && s.inflight !! s.buffered
  }

  ghost predicate PassOk<T>(s: System<T>) {
    s.pass.Some? ==>
      var p := s.pass.value;
      && p.events != [] && p.next <= |p.events|
      && Ascending(p.events) && Spread(p.events)
      && (forall e :: e in p.events ==> e in s.buffered && 1 <= e.sequence)
      && (forall e :: e in p.events[..p.next] ==> e in s.replays)
  }

  ghost predicate Inv<T>(s: System<T>) {
    WellNumbered(s) && HandleLive(s.buffer) && WellRecorded(s) && PassOk(s)
  }

  lemma AllocatePreserves<T>(s: System<T>, e: BufferedEvent<T>)
    requires Inv(s) && e.sequence == s.buffer.sequence + 1 && e !in s.issued
    ensures Inv(Allocated(s, e))
  {
  }

  lemma WriteMembers<T>(s: System<T>, e: BufferedEvent<T>, name: nat, full: bool)
    requires HandleLive(s.buffer)
    ensures forall x :: x in OnDisk(Written(s, e, name, full).buffer.dir) ==> x in OnDisk(s.buffer.dir) || x == e
    ensures forall x :: x in OnDisk(s.buffer.dir) || x == e ==> x in OnDisk(Written(s, e, name, full).buffer.dir)
  {
    WriteGrows(s.buffer, e, name, full);
    var before, after := OnDisk(s.buffer.dir), OnDisk(Written(s, e, name, full).buffer.dir);
    forall x | x in after
      ensures x in before || x == e
    {
      assert x in multiset(after);
    }
    forall x | x in before || x == e
      ensures x in after
    {
      assert x in multiset(after);
    }
  }

  lemma WritePreserves<T>(s: System<T>, e: BufferedEvent<T>, name: nat, full: bool)
    requires Inv(s) && e in s.inflight
    ensures Inv(Written(s, e, name, full))
  {
    WriteGrows(s.buffer, e, name, full);
    WriteMembers(s, e, name, full);
    GrownSpread(OnDisk(s.buffer.dir), e, OnDisk(Written(s, e, name, full).buffer.dir));
  }

  lemma MarkKeepsHandle<T>(b: Buffer<T>, upTo: nat)
    requires HandleLive(b)
    ensures HandleLive(AfterMarkSynced(b, upTo))
  {
    if b.handle && !DeletesCurrent(b, upTo) {
      var i :| 0 <= i < |b.dir| && b.dir[i].name == b.current.value;
      UnsyncedContents(b.dir, upTo);
    }
  }

  lemma MarkPreserves<T>(s: System<T>)
    requires Inv(s) && Enabled(s, Mark)
    ensures Inv(Apply(s, Mark))
  {
    var upTo := SyncedUpTo(s.pass.value);
    UnsyncedContents(s.buffer.dir, upTo);
    MarkKeepsHandle(s.buffer, upTo);
  }

  lemma ReplayPreserves<T>(s: System<T>, raises: bool)
    requires Inv(s) && Enabled(s, Replay(raises))
    ensures Inv(Apply(s, Replay(raises)))
  {
    var p := s.pass.value;
    assert p.events[..p.next + 1] == p.events[..p.next] + [p.events[p.next]];
    assert p.events[p.next] in p.events;
  }

  lemma SnapshotPreserves<T>(s: System<T>)
    requires Inv(s) && Enabled(s, Snapshot)
    ensures Inv(Apply(s, Snapshot))
  {
    PendingContents(s.buffer.dir);
    forall e | e in Pending(s.buffer.dir)
      ensures e in s.buffered && 1 <= e.sequence
    {
      PendingMember(s.buffer.dir, e);
    }
  }

  lemma RestartPreserves<T>(s: System<T>)
    requires Inv(s)
    ensures Inv(Apply(s, Restart))
  {
    var disk := OnDisk(s.buffer.dir);
    MaxSequenceBounds(disk);
    forall e | e in disk
      ensures e.sequence <= MaxSequence(disk)
    {
      var i :| 0 <= i < |disk| && disk[i] == e;
    }
  }

  lemma StepPreserves<T>(s: System<T>, step: Step<T>)
    requires Inv(s)
    ensures Inv(Apply(s, step))
  {
    if Enabled(s, step) {
      match step
      case Allocate(data, ts) => AllocatePreserves(s, Numbered(s, data, ts));
      case Write(e, name, full) => WritePreserves(s, e, name, full);
      case Append(data, ts, name, full) =>
        var e := Numbered(s, data, ts);
        AllocatePreserves(s, e);
        WritePreserves(Allocated(s, e), e, name, full);
      case Snapshot => SnapshotPreserves(s);
      case Replay(raises) => ReplayPreserves(s, raises);
      case Mark => MarkPreserves(s);
      case Restart => RestartPreserves(s);
    }
  }

  lemma {:induction false} RunKeepsInv<T>(s: System<T>, run: seq<Step<T>>)
    requires Inv(s)
    ensures Inv(After(s, run))
    decreases |run|
  {
    if run != [] {
      RunKeepsInv(s, run[..|run| - 1]);
      StepPreserves(After(s, run[..|run| - 1]), run[|run| - 1]);
    }
  }

  // ---- nothing vanishes ------------------------------------------------------------

  /** No writer holds a number at or below the last event a snapshot taken now would see. */
  ghost predicate QuietBelow<T>(s: System<T>, events: seq<BufferedEvent<T>>) {
    forall e :: e in s.inflight ==> forall f :: f in events ==> f.sequence < e.sequence
  }

  /** The pass in progress has seen every event on disk up to its last, and no writer can
      still add one below that. */
  ghost predicate PassComplete<T>(s: System<T>) {
    s.pass.Some? ==>
      var p := s.pass.value;
      && QuietBelow(s, p.events)
      && (forall f :: f in p.events ==> f.sequence <= s.buffer.sequence)
      && (forall e :: e in OnDisk(s.buffer.dir) ==> e in p.events || forall f :: f in p.events ==> f.sequence < e.sequence)
  }

  lemma CompleteAfterAllocate<T>(s: System<T>, e: BufferedEvent<T>)
    requires PassComplete(s) && e.sequence == s.buffer.sequence + 1
    ensures PassComplete(Allocated(s, e))
  {
  }

  lemma CompleteAfterWrite<T>(s: System<T>, e: BufferedEvent<T>, name: nat, full: bool)
    requires Inv(s) && PassComplete(s) && e in s.inflight
    ensures PassComplete(Written(s, e, name, full))
  {
    WriteMembers(s, e, name, full);
  }

  lemma MarkLosesNothing<T>(s: System<T>)
    requires Inv(s) && Enabled(s, Mark) && PassComplete(s) && NothingVanished(s)
    ensures NothingVanished(Apply(s, Mark))
  {
    var p := s.pass.value;
    var upTo := SyncedUpTo(p);
    UnsyncedContents(s.buffer.dir, upTo);
    forall e | e in s.buffered
      ensures e in OnDisk(Apply(s, Mark).buffer.dir) || e in s.replays
    {
      if e in OnDisk(s.buffer.dir) && 0 < upTo && e.sequence <= upTo {
        assert p.events[p.next - 1] in p.events;
        assert e in p.events;
        var i :| 0 <= i < |p.events| && p.events[i] == e;
        assert i < p.next;
        assert e in p.events[..p.next];
      }
    }
  }

  lemma GuardedStep<T>(s: System<T>, step: Step<T>)
    requires Inv(s) && PassComplete(s) && NothingVanished(s)
    requires step.Snapshot? && Enabled(s, step) ==> QuietBelow(s, Pending(s.buffer.dir))
    ensures Inv(Apply(s, step)) && PassComplete(Apply(s, step)) && NothingVanished(Apply(s, step))
  {
    StepPreserves(s, step);
    if Enabled(s, step) {
      match step
      case Allocate(data, ts) =>
      case Write(e, name, full) =>
        WriteMembers(s, e, name, full);
        CompleteAfterWrite(s, e, name, full);
      case Append(data, ts, name, full) =>
        var e := Numbered(s, data, ts);
        AllocatePreserves(s, e);
        CompleteAfterAllocate(s, e);
        WriteMembers(Allocated(s, e), e, name, full);
        CompleteAfterWrite(Allocated(s, e), e, name, full);
      case Snapshot => PendingContents(s.buffer.dir);
      case Replay(raises) =>
      case Mark => MarkLosesNothing(s);
      case Restart =>
    }
  }

  /** At every snapshot of the run, no writer sits on a number below the snapshot's last event. */
  ghost predicate QuietSnapshots<T>(s: System<T>, run: seq<Step<T>>) {
    forall i :: 0 <= i < |run| && run[i].Snapshot? ==>
      var at := After(s, run[..i]);
      Enabled(at, Snapshot) ==> QuietBelow(at, Pending(at.buffer.dir))
  }

  /** At-least-once. In every run of appends, rotations, restarts and sync passes, with replays
      that fail and passes that break off after three failures, every event ever written is
      still on disk or was handed to replay, provided no snapshot is taken while a writer sits
      on a number below the snapshot's last event. */
  lemma {:induction false} NothingVanishesUnreplayed<T>(s: System<T>, run: seq<Step<T>>)
    requires Inv(s) && PassComplete(s) && NothingVanished(s)
    requires QuietSnapshots(s, run)
    ensures Inv(After(s, run)) && PassComplete(After(s, run)) && NothingVanished(After(s, run))
    decreases |run|
  {
    if run != [] {
      var before := run[..|run| - 1];
      forall i | 0 <= i < |before| && before[i].Snapshot?
        ensures var at := After(s, before[..i]); Enabled(at, Snapshot) ==> QuietBelow(at, Pending(at.buffer.dir))
      {
        assert before[..i] == run[..i] && before[i] == run[i];
      }
      NothingVanishesUnreplayed(s, before);
      assert run[..|run| - 1] == before;
      GuardedStep(After(s, before), run[|run| - 1]);
    }
  }

  ghost predicate NoSplitWrites<T>(run: seq<Step<T>>) {
    forall i :: 0 <= i < |run| ==> !run[i].Allocate?
  }

  lemma {:induction false} AtomicWritersHoldNothing<T>(s: System<T>, run: seq<Step<T>>)
    requires s.inflight == {} && NoSplitWrites(run)
    ensures After(s, run).inflight == {}
    decreases |run|
  {
    if run != [] {
      AtomicWritersHoldNothing(s, run[..|run| - 1]);
    }
  }

  /** The case the original means to be in: numbering and appending as one action. */
  lemma AtomicAppendsLoseNothing<T>(run: seq<Step<T>>)
    requires NoSplitWrites(run)
    ensures NothingVanished(After(Fresh(), run))
  {
    forall i | 0 <= i < |run| && run[i].Snapshot?
      ensures var at := After(Fresh(), run[..i]); Enabled(at, Snapshot) ==> QuietBelow(at, Pending(at.buffer.dir))
    {
      AtomicWritersHoldNothing(Fresh(), run[..i]);
    }
    NothingVanishesUnreplayed(Fresh(), run);
  }
}
