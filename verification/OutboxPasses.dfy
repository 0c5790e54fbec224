/** One sync pass at a time: exactly when a pass can lose an event, and when every event is
    handed over exactly once. Builds on the runs of Outbox. */
module OutboxPasses {
  import opened Wrappers
  import opened LocalBuffer
  import opened Outbox

  lemma {:induction false} AfterConcat<T>(s: System<T>, a: seq<Step<T>>, b: seq<Step<T>>)
    ensures After(s, a + b) == After(After(s, a), b)
    decreases |b|
  {
    if b == [] {
      assert a + b == a;
    } else {
      AfterConcat(s, a, b[..|b| - 1]);
      assert (a + b)[..|a + b| - 1] == a + b[..|b| - 1];
    }
  }

  // ---- the race between taking a number and writing the line -----------------------

  ghost function Replays<T>(n: nat): seq<Step<T>> {
    seq(n, _ => Step<T>.Replay(false))
  }

  /** `n` replays in a row, none of them failing. */
  lemma {:induction false} ReplayingInOrder<T>(s: System<T>, events: seq<BufferedEvent<T>>, n: nat)
    requires s.pass == Some(Pass(events, 0, 0, false)) && n <= |events|
    ensures After(s, Replays(n)) == s.(pass := Some(Pass(events, n, 0, false)), replays := s.replays + events[..n])
    decreases n
  {
    if n == 0 {
      assert s.replays + events[..0] == s.replays;
    } else {
      ReplayingInOrder(s, events, n - 1);
      assert Replays<T>(n)[..n - 1] == Replays(n - 1);
      assert s.replays + events[..n - 1] + [events[n - 1]] == s.replays + events[..n];
    }
  }

  /** The run in which the writer of `e` is overtaken: a pass starts, then `e` is written, then
      the pass hands over everything it saw and deletes its files. */
  ghost function OvertakenRun<T>(e: BufferedEvent<T>, pending: nat): seq<Step<T>> {
    [Step<T>.Snapshot, Step<T>.Write(e, 0, false)] + Replays(pending) + [Step<T>.Mark]
  }

  /** Once `e` is written, the pass has seen an event with a number at least as large as any on disk. */
  lemma OvertakenIsBelowLast<T>(s: System<T>, e: BufferedEvent<T>, f: BufferedEvent<T>)
    requires Inv(s) && e in s.inflight
    requires f in Pending(s.buffer.dir) && e.sequence <= f.sequence
    ensures var events := Pending(s.buffer.dir);
            forall x :: x in OnDisk(Written(s, e, 0, false).buffer.dir) ==> x.sequence <= events[|events| - 1].sequence
  {
    var events := Pending(s.buffer.dir);
    PendingContents(s.buffer.dir);
    WriteMembers(s, e, 0, false);
    forall x | x in OnDisk(Written(s, e, 0, false).buffer.dir)
      ensures x.sequence <= events[|events| - 1].sequence
    {
      PendingMember(s.buffer.dir, x);
      var g := if x == e then f else x;
      var i :| 0 <= i < |events| && events[i] == g;
    }
  }

  lemma MarkEmpties<T>(s: System<T>)
    requires Enabled(s, Step<T>.Mark) && s.pass.value.next > 0
    requires SyncedUpTo(s.pass.value) > 0
    requires forall x :: x in OnDisk(s.buffer.dir) ==> x.sequence <= SyncedUpTo(s.pass.value)
    ensures OnDisk(Apply(s, Step<T>.Mark).buffer.dir) == []
    ensures Apply(s, Step<T>.Mark).buffered == s.buffered && Apply(s, Step<T>.Mark).replays == s.replays
  {
    UnsyncedEmpty(s.buffer.dir, SyncedUpTo(s.pass.value));
  }

  lemma NeverHandedOver<T>(s: System<T>, e: BufferedEvent<T>)
    requires Inv(s) && e in s.inflight
    ensures e !in s.replays && e !in Pending(s.buffer.dir)
  {
    PendingMember(s.buffer.dir, e);
  }

  /** The system after the pass of `OvertakenRun`, before its mark. */
  ghost function OvertakenPass<T>(s: System<T>, e: BufferedEvent<T>, n: nat): System<T> {
    After(Apply(Apply(s, Step<T>.Snapshot), Step<T>.Write(e, 0, false)), Replays(n))
  }

  /** Everything in its snapshot is handed over, and nothing on disk is above its last number. */
  lemma OvertakenPassEnds<T>(s: System<T>, e: BufferedEvent<T>, f: BufferedEvent<T>, events: seq<BufferedEvent<T>>)
    requires Inv(s) && s.pass.None? && events == Pending(s.buffer.dir)
    requires e in s.inflight && f in events && e.sequence <= f.sequence
    ensures var done := OvertakenPass(s, e, |events|);
            && done.pass == Some(Pass(events, |events|, 0, false))
            && e in done.buffered && done.replays == s.replays + events
            && forall x :: x in OnDisk(done.buffer.dir) ==> x.sequence <= events[|events| - 1].sequence
  {
    var s1 := Apply(s, Step<T>.Snapshot);
    StepPreserves(s, Step<T>.Snapshot);
    OvertakenIsBelowLast(s1, e, f);
    ReplayingInOrder(Apply(s1, Step<T>.Write(e, 0, false)), events, |events|);
    assert events[..|events|] == events;
  }

  lemma LastIsPositive<T>(s: System<T>, events: seq<BufferedEvent<T>>)
    requires Inv(s) && events == Pending(s.buffer.dir) && events != []
    ensures events[|events| - 1].sequence > 0
  {
    assert events[|events| - 1] in events;
    PendingMember(s.buffer.dir, events[|events| - 1]);
  }

  lemma OvertakenEventVanishes<T>(s: System<T>, e: BufferedEvent<T>, f: BufferedEvent<T>)
    requires Inv(s) && s.pass.None?
    requires e in s.inflight && f in Pending(s.buffer.dir) && e.sequence <= f.sequence
    ensures !NothingVanished(After(s, OvertakenRun(e, |Pending(s.buffer.dir)|)))
  {
    var events := Pending(s.buffer.dir);
    LastIsPositive(s, events);
    OvertakenPassEnds(s, e, f, events);
    MarkEmpties(OvertakenPass(s, e, |events|));
    NeverHandedOver(s, e);
    OvertakenRunUnfolds(s, e, |events|);
  }

  lemma OvertakenRunUnfolds<T>(s: System<T>, e: BufferedEvent<T>, n: nat)
    ensures After(s, OvertakenRun(e, n))
         == Apply(OvertakenPass(s, e, n), Step<T>.Mark)
  {
    var first, second := [Step<T>.Snapshot], [Step<T>.Snapshot, Step<T>.Write(e, 0, false)];
    assert first[..0] == [] && second[..1] == first;
    assert After(s, first) == Apply(After(s, []), Step<T>.Snapshot);
    assert After(s, second) == Apply(After(s, first), Step<T>.Write(e, 0, false));
    AfterConcat(s, second, Replays(n));
    var run := OvertakenRun(e, n);
    assert run[..|run| - 1] == second + Replays(n);
    assert run[|run| - 1] == Step<T>.Mark;
  }

  /** A run of one pass: it starts with the snapshot and takes no other. */
  ghost predicate OnePass<T>(run: seq<Step<T>>) {
    run != [] && run[0].Snapshot? && forall i :: 1 <= i < |run| ==> !run[i].Snapshot?
  }

  /** The split locks, exactly. Starting a pass now can end in the loss of an event that was
      written and never handed over if, and only if, some writer already holds a number below
      the last event the pass would see. */
  lemma PassCanLoseIffOvertaken<T(!new)>(s: System<T>)
    requires Inv(s) && NothingVanished(s) && s.pass.None? && Pending(s.buffer.dir) != []
    ensures (exists run :: OnePass(run) && !NothingVanished(After(s, run))) <==> !QuietBelow(s, Pending(s.buffer.dir))
  {
    if QuietBelow(s, Pending(s.buffer.dir)) {
      forall run | OnePass(run)
        ensures NothingVanished(After(s, run))
      {
        assert run[..0] == [];
        NothingVanishesUnreplayed(s, run);
      }
    } else {
      var e :| e in s.inflight && !forall f :: f in Pending(s.buffer.dir) ==> f.sequence < e.sequence;
      var f :| f in Pending(s.buffer.dir) && e.sequence <= f.sequence;
      OvertakenEventVanishes(s, e, f);
      assert OnePass(OvertakenRun(e, |Pending(s.buffer.dir)|));
    }
  }

  // ---- exactly once -------------------------------------------------------------------

  /** Nothing is written and nothing restarts while a pass runs, and no pass breaks off. */
  ghost predicate Undisturbed<T>(s: System<T>, step: Step<T>) {
    s.pass.Some? && Enabled(s, step) ==>
      && !step.Write? && !step.Append? && !step.Restart?
      && (step.Replay? ==> !Apply(s, step).pass.value.broken)
  }

  ghost predicate UndisturbedRun<T>(s: System<T>, run: seq<Step<T>>) {
    forall i :: 0 <= i < |run| ==> Undisturbed(After(s, run[..i]), run[i])
  }

  ghost function TimesHandedOver<T>(s: System<T>, e: BufferedEvent<T>): nat {
    multiset(s.replays)[e]
  }

  /** Each written event has been handed over once if the pass in progress has reached it or it
      is off the disk, and not at all otherwise. */
  ghost predicate OnceSoFar<T>(s: System<T>) {
    match s.pass
    case None =>
      forall e :: e in s.buffered ==>
        TimesHandedOver(s, e) == if e in OnDisk(s.buffer.dir) then 0 else 1
    case Some(p) =>
      && !p.broken && p.next <= |p.events|
      && (forall e :: e in p.events ==> e in OnDisk(s.buffer.dir))
      && (forall e :: e in OnDisk(s.buffer.dir) ==> e in p.events)
      && (forall e :: e in s.buffered ==>
            TimesHandedOver(s, e) == if e in OnDisk(s.buffer.dir) && e !in p.events[..p.next] then 0 else 1)
  }

  lemma WriteOnce<T>(s: System<T>, e: BufferedEvent<T>, name: nat, full: bool)
    requires Inv(s) && OnceSoFar(s) && s.pass.None? && e in s.inflight
    ensures OnceSoFar(Written(s, e, name, full))
  {
    WriteMembers(s, e, name, full);
  }

  lemma ReplayOnce<T>(s: System<T>, raises: bool)
    requires Inv(s) && OnceSoFar(s) && Enabled(s, Step<T>.Replay(raises))
    requires Undisturbed(s, Step<T>.Replay(raises))
    ensures OnceSoFar(Apply(s, Step<T>.Replay(raises)))
  {
    var p := s.pass.value;
    var x := p.events[p.next];
    var s' := Apply(s, Step<T>.Replay(raises));
    assert p.events[..p.next + 1] == p.events[..p.next] + [x];
    assert x in p.events;
    assert multiset(s'.replays) == multiset(s.replays) + multiset{x};
    assert x !in p.events[..p.next];
    forall e | e in s.buffered
      ensures TimesHandedOver(s', e) == if e in OnDisk(s.buffer.dir) && e !in p.events[..p.next + 1] then 0 else 1
    {
      assert e in p.events[..p.next + 1] <==> e in p.events[..p.next] || e == x;
    }
  }

  lemma FinishedPassIsBelow<T>(s: System<T>, p: Pass<T>)
    requires Inv(s) && OnceSoFar(s) && Enabled(s, Step<T>.Mark) && p == s.pass.value
    ensures p.events[..p.next] == p.events
    ensures forall e :: e in OnDisk(s.buffer.dir) ==> e.sequence <= SyncedUpTo(p)
  {
    assert p.next == |p.events| && p.events[..p.next] == p.events;
    var upTo := SyncedUpTo(p);
    assert p.events[p.next - 1] in p.events;
    forall e | e in OnDisk(s.buffer.dir)
      ensures e.sequence <= upTo
    {
      var i :| 0 <= i < |p.events| && p.events[i] == e;
      assert p.events[i].sequence <= p.events[p.next - 1].sequence;
    }
  }

  lemma MarkOnce<T>(s: System<T>)
    requires Inv(s) && OnceSoFar(s) && Enabled(s, Step<T>.Mark)
    ensures OnceSoFar(Apply(s, Step<T>.Mark))
    ensures OnDisk(Apply(s, Step<T>.Mark).buffer.dir) == []
  {
    FinishedPassIsBelow(s, s.pass.value);
    UnsyncedEmpty(s.buffer.dir, SyncedUpTo(s.pass.value));
  }

  lemma StepOnce<T>(s: System<T>, step: Step<T>)
    requires Inv(s) && OnceSoFar(s) && Undisturbed(s, step)
    ensures OnceSoFar(Apply(s, step))
  {
    if Enabled(s, step) {
      match step
      case Allocate(data, ts) =>
      case Write(e, name, full) => WriteOnce(s, e, name, full);
      case Append(data, ts, name, full) =>
        var e := Numbered(s, data, ts);
        AllocatePreserves(s, e);
        WriteOnce(Allocated(s, e), e, name, full);
      case Snapshot =>
        forall e | e in Pending(s.buffer.dir)
          ensures e in OnDisk(s.buffer.dir)
        {
          PendingMember(s.buffer.dir, e);
        }
        forall e | e in OnDisk(s.buffer.dir)
          ensures e in Pending(s.buffer.dir)
        {
          PendingMember(s.buffer.dir, e);
        }
      case Replay(raises) => ReplayOnce(s, raises);
      case Mark => MarkOnce(s);
      case Restart =>
    }
  }

  /** Exactly once. In every run from an empty directory in which no write or restart falls
      inside a pass and no pass breaks off, each event ever written has been handed over once
      if its pass has reached it and is waiting on disk unhanded otherwise; a failing replay
      counts as a hand-over. */
  lemma {:induction false} HandedOverExactlyOnce<T>(run: seq<Step<T>>)
    requires UndisturbedRun(Fresh(), run)
    ensures Inv(After(Fresh(), run)) && OnceSoFar(After(Fresh(), run))
    decreases |run|
  {
    RunKeepsInv(Fresh(), run);
    if run != [] {
      var before := run[..|run| - 1];
      forall i | 0 <= i < |before|
        ensures Undisturbed(After(Fresh(), before[..i]), before[i])
      {
        assert before[..i] == run[..i] && before[i] == run[i];
      }
      HandedOverExactlyOnce(before);
      assert Undisturbed(After(Fresh(), run[..|run| - 1]), run[|run| - 1]);
      StepOnce(After(Fresh(), before), run[|run| - 1]);
    }
  }

  // ---- why a write inside a pass costs a second hand-over --------------------------------

  /** What a pass leaves behind, exactly: an event survives the deletion if and only if its file
      also holds an event the pass did not reach. */
  lemma {:induction false} KeptExactlyWithLaterEvent<T>(dir: seq<LogFile<T>>, upTo: nat, e: BufferedEvent<T>)
    ensures e in OnDisk(Unsynced(dir, upTo))
       <==> exists i, j :: 0 <= i < |dir| && 0 <= j < |dir[i].events| && e in dir[i].events
                           && dir[i].events[j].sequence > upTo
  {
    if dir != [] {
      var rest := dir[1..];
      KeptExactlyWithLaterEvent(rest, upTo, e);
      MaxSequenceBounds(dir[0].events);
      if e in OnDisk(Unsynced(rest, upTo)) {
        var i, j :| 0 <= i < |rest| && 0 <= j < |rest[i].events| && e in rest[i].events && rest[i].events[j].sequence > upTo;
        assert dir[i + 1] == rest[i];
      }
      if e in dir[0].events && MaxSequence(dir[0].events) > upTo {
        var j :| 0 <= j < |dir[0].events| && dir[0].events[j].sequence == MaxSequence(dir[0].events);
        assert dir[0].events[j].sequence > upTo;
      }
      forall i, j | 0 <= i < |dir| && 0 <= j < |dir[i].events| && e in dir[i].events && dir[i].events[j].sequence > upTo
        ensures e in OnDisk(Unsynced(dir, upTo))
      {
        if i > 0 {
          assert rest[i - 1] == dir[i];
          assert e in OnDisk(Unsynced(rest, upTo));
        }
      }
    }
  }

  /** A first event, its hand-over, and a second event while that pass is still open. */
  ghost function GrowthRun<T>(a: T, b: T): seq<Step<T>> {
    [Step<T>.Append(a, 0, 0, false), Step<T>.Snapshot, Step<T>.Replay(false),
     Step<T>.Append(b, 1, 0, false), Step<T>.Mark, Step<T>.Snapshot, Step<T>.Replay(false)]
  }

  lemma SingletonPending<T>(e: BufferedEvent<T>)
    ensures var dir := [LogFile(0, [e])]; OnDisk(dir) == [e] && Pending(dir) == [e]
  {
    var dir := [LogFile(0, [e])];
    assert dir[1..] == [];
    assert OnDisk(dir) == [e] + OnDisk(dir[1..]);
    assert [e][..0] == [];
    assert SortBySequence([e]) == Insert(SortBySequence([e][..0]), e);
  }

  lemma PairPending<T>(e: BufferedEvent<T>, f: BufferedEvent<T>)
    requires e.sequence < f.sequence
    ensures var dir := [LogFile(0, [e, f])];
            Pending(dir) == [e, f] && MaxSequence([e, f]) == f.sequence
            && (forall upTo: nat :: upTo < f.sequence ==> Unsynced(dir, upTo) == dir)
  {
    var dir := [LogFile(0, [e, f])];
    assert dir[1..] == [];
    assert OnDisk(dir) == [e, f] + OnDisk(dir[1..]) == [e, f];
    assert [e, f][..1] == [e] && [e][..0] == [];
    SingletonPending(e);
    assert SortBySequence([e, f]) == Insert(SortBySequence([e, f][..1]), f);
    assert Insert([e], f) == [e] + [f];
    assert SortBySequence([e]) == Pending([LogFile(0, [e])]);
    assert [e, f][1..] == [f] && [f][1..] == [];
    assert MaxSequence([f]) == f.sequence;
    assert forall upTo: nat :: upTo < f.sequence ==> Unsynced(dir, upTo) == [dir[0]] + Unsynced(dir[1..], upTo);
  }

  lemma FirstEventWritten<T>(a: T, b: T)
    ensures Apply(Fresh(), GrowthRun(a, b)[0])
         == var e := BufferedEvent(a, 0, 1);
            System(Buffer(1, [LogFile(0, [e])], Some(0), true), {}, None, {e}, {e}, [])
  {
    var e := BufferedEvent(a, 0, 1);
    assert Numbered(Fresh(), a, 0) == e;
    assert CreateOrAppend([], 0, e) == [LogFile(0, [e])];
  }

  lemma FirstEventHandedOver<T>(a: T, b: T)
    ensures var run := GrowthRun(a, b);
            var e := BufferedEvent(a, 0, 1);
            Apply(Apply(Apply(Fresh(), run[0]), run[1]), run[2])
            == System(Buffer(1, [LogFile(0, [e])], Some(0), true), {}, Some(Pass([e], 1, 0, false)), {e}, {e}, [e])
  {
    FirstEventWritten(a, b);
    SingletonPending(BufferedEvent(a, 0, 1));
  }

  lemma GrownFileKept<T>(a: T, b: T, s: System<T>)
    requires var e := BufferedEvent(a, 0, 1);
             s == System(Buffer(1, [LogFile(0, [e])], Some(0), true), {}, Some(Pass([e], 1, 0, false)), {e}, {e}, [e])
    ensures var run := GrowthRun(a, b);
            var after := Apply(Apply(s, run[3]), run[4]);
            after.pass.None? && after.replays == s.replays
            && after.buffer.dir == [LogFile(0, [BufferedEvent(a, 0, 1), BufferedEvent(b, 1, 2)])]
  {
    var e, f := BufferedEvent(a, 0, 1), BufferedEvent(b, 1, 2);
    assert [e] + [f] == [e, f];
    assert Numbered(s, b, 1) == f && f !in s.issued;
    assert WriteThrough([LogFile(0, [e])], 0, f) == [LogFile(0, [e] + [f])] + [LogFile(0, [e])][1..];
    PairPending(e, f);
    var grown := Apply(s, GrowthRun(a, b)[3]);
    assert grown.buffer.dir == [LogFile(0, [e, f])];
    assert grown.pass == s.pass && SyncedUpTo(grown.pass.value) == 1;
    assert AfterMarkSynced(grown.buffer, 1).dir == Unsynced(grown.buffer.dir, 1);
  }

  /** The open file grows during a pass, so it is kept whole and its first event is handed over
      by the next pass too. */
  lemma GrownFileIsHandedOverAgain<T>(a: T, b: T)
    ensures TimesHandedOver(After(Fresh(), GrowthRun(a, b)), BufferedEvent(a, 0, 1)) == 2
  {
    var run := GrowthRun(a, b);
    var e, f := BufferedEvent(a, 0, 1), BufferedEvent(b, 1, 2);
    FirstEventHandedOver(a, b);
    var s3 := Apply(Apply(Apply(Fresh(), run[0]), run[1]), run[2]);
    GrownFileKept(a, b, s3);
    var s5 := Apply(Apply(s3, run[3]), run[4]);
    PairPending(e, f);
    assert Apply(Apply(s5, run[5]), run[6]).replays == [e] + [e];
    RunOfSeven(Fresh(), run);
  }

  lemma RunOfSeven<T>(s: System<T>, run: seq<Step<T>>)
    requires |run| == 7
    ensures After(s, run)
         == Apply(Apply(Apply(Apply(Apply(Apply(Apply(s, run[0]), run[1]), run[2]), run[3]), run[4]), run[5]), run[6])
  {
    assert run[..7] == run;
    assert forall i :: 0 <= i < 7 ==> run[..i + 1][..i] == run[..i];
    assert After(s, run[..0]) == s;
    assert After(s, run[..1]) == Apply(After(s, run[..0]), run[0]);
    assert After(s, run[..2]) == Apply(After(s, run[..1]), run[1]);
    assert After(s, run[..3]) == Apply(After(s, run[..2]), run[2]);
    assert After(s, run[..4]) == Apply(After(s, run[..3]), run[3]);
    assert After(s, run[..5]) == Apply(After(s, run[..4]), run[4]);
    assert After(s, run[..6]) == Apply(After(s, run[..5]), run[5]);
  }
}
