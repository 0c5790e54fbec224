/** The on-disk event log (agent/local_buffer.py, `LocalEventBuffer`).

    A buffer directory is the list of its files in name order, which is the order
    the original's sorted glob reads them in; a file is the list of its lines.
  */
module LocalBuffer {
  import opened Wrappers

  datatype BufferedEvent<T> = BufferedEvent(data: T, timestamp: int, sequence: nat)
  datatype LogFile<T> = LogFile(name: nat, events: seq<BufferedEvent<T>>)

  /** `current` is the path last opened for writing, `handle` whether it is still open. */
  datatype Buffer<T> = Buffer(sequence: nat, dir: seq<LogFile<T>>, current: Option<nat>, handle: bool)

  // ---- what is on disk -----------------------------------------------------

  function OnDisk<T>(dir: seq<LogFile<T>>): seq<BufferedEvent<T>> {
    if dir == [] then [] else dir[0].events + OnDisk(dir[1..])
  }

  function MaxSequence<T>(events: seq<BufferedEvent<T>>): nat {
    if events == [] then 0
    else
      var rest := MaxSequence(events[1..]);
      if events[0].sequence > rest then events[0].sequence else rest
  }

  predicate HasFile<T>(dir: seq<LogFile<T>>, name: nat) {
    exists i :: 0 <= i < |dir| && dir[i].name == name
  }

  predicate Ascending<T>(events: seq<BufferedEvent<T>>) {
    forall i, j :: 0 <= i < j < |events| ==> events[i].sequence <= events[j].sequence
  }

  /** Insert `e` before the first event with a larger number, so equal numbers keep their order. */
  function Insert<T>(sorted: seq<BufferedEvent<T>>, e: BufferedEvent<T>): seq<BufferedEvent<T>> {
    if sorted == [] || sorted[|sorted| - 1].sequence <= e.sequence then sorted + [e]
    else Insert(sorted[..|sorted| - 1], e) + [sorted[|sorted| - 1]]
  }

  function SortBySequence<T>(events: seq<BufferedEvent<T>>): seq<BufferedEvent<T>> {
    if events == [] then []
    else Insert(SortBySequence(events[..|events| - 1]), events[|events| - 1])
  }

  /** What `get_pending_events` returns. */
  function Pending<T>(dir: seq<LogFile<T>>): seq<BufferedEvent<T>> {
    SortBySequence(OnDisk(dir))
  }

  // ---- the operations, as functions of the state -----------------------------

  /** Open `name` for appending, creating it in name order if it is not there, and write one line. */
  function CreateOrAppend<T>(dir: seq<LogFile<T>>, name: nat, e: BufferedEvent<T>): seq<LogFile<T>> {
    if dir == [] || name < dir[0].name then [LogFile(name, [e])] + dir
    else if dir[0].name == name then [dir[0].(events := dir[0].events + [e])] + dir[1..]
    else [dir[0]] + CreateOrAppend(dir[1..], name, e)
  }

  /** Write one line through an open handle. If the file behind it has been unlinked, the line
      is in no file any more. */
  function WriteThrough<T>(dir: seq<LogFile<T>>, name: nat, e: BufferedEvent<T>): seq<LogFile<T>> {
    if dir == [] then []
    else if dir[0].name == name then [dir[0].(events := dir[0].events + [e])] + dir[1..]
    else [dir[0]] + WriteThrough(dir[1..], name, e)
  }

  function AfterAllocate<T>(b: Buffer<T>): Buffer<T> {
    b.(sequence := b.sequence + 1)
  }

  /** The write half of `buffer_event`: `name` is what a new file would be called now, `full`
      whether the file has outgrown the rotation size. */
  function AfterWrite<T>(b: Buffer<T>, e: BufferedEvent<T>, name: nat, full: bool): Buffer<T> {
    if b.handle && b.current.Some? then
      b.(dir := WriteThrough(b.dir, b.current.value, e), handle := !full)
    else
      b.(dir := CreateOrAppend(b.dir, name, e), current := Some(name), handle := !full)
  }

  function Unsynced<T>(dir: seq<LogFile<T>>, upTo: nat): seq<LogFile<T>> {
    if dir == [] then []
    else if MaxSequence(dir[0].events) <= upTo then Unsynced(dir[1..], upTo)
    else [dir[0]] + Unsynced(dir[1..], upTo)
  }

  predicate DeletesCurrent<T>(b: Buffer<T>, upTo: nat) {
    && b.current.Some?
    && exists i :: 0 <= i < |b.dir| && b.dir[i].name == b.current.value && MaxSequence(b.dir[i].events) <= upTo
  }

  function AfterMarkSynced<T>(b: Buffer<T>, upTo: nat): Buffer<T> {
    if DeletesCurrent(b, upTo) then Buffer(b.sequence, Unsynced(b.dir, upTo), None, false)
    else b.(dir := Unsynced(b.dir, upTo))
  }

  /** A new process over the same directory. */
  function Restarted<T>(dir: seq<LogFile<T>>): Buffer<T> {
    Buffer(MaxSequence(OnDisk(dir)), dir, None, false)
  }

  // ---- facts about the functions ---------------------------------------------

  lemma {:induction false} MaxSequenceConcat<T>(a: seq<BufferedEvent<T>>, b: seq<BufferedEvent<T>>)
    ensures MaxSequence(a + b) == if MaxSequence(a) > MaxSequence(b) then MaxSequence(a) else MaxSequence(b)
  {
    if a == [] {
      assert a + b == b;
    } else {
      assert (a + b)[1..] == a[1..] + b;
      MaxSequenceConcat(a[1..], b);
    }
  }

  lemma {:induction false} MaxSequenceBounds<T>(events: seq<BufferedEvent<T>>)
    ensures forall i :: 0 <= i < |events| ==> events[i].sequence <= MaxSequence(events)
    ensures events != [] ==> exists i :: 0 <= i < |events| && events[i].sequence == MaxSequence(events)
  {
    if events != [] {
      var rest := events[1..];
      MaxSequenceBounds(rest);
      forall i | 0 <= i < |events|
        ensures events[i].sequence <= MaxSequence(events)
      {
        assert i > 0 ==> events[i] == rest[i - 1];
      }
      if events[0].sequence > MaxSequence(rest) || rest == [] {
        assert events[0].sequence == MaxSequence(events);
      } else {
        var k :| 0 <= k < |rest| && rest[k].sequence == MaxSequence(rest);
        assert events[k + 1].sequence == MaxSequence(events);
      }
    }
  }

  lemma {:induction false} OnDiskConcat<T>(a: seq<LogFile<T>>, b: seq<LogFile<T>>)
    ensures OnDisk(a + b) == OnDisk(a) + OnDisk(b)
  {
    if a == [] {
      assert a + b == b;
    } else {
      assert (a + b)[1..] == a[1..] + b;
      OnDiskConcat(a[1..], b);
    }
  }

  lemma {:induction false} InsertAdds<T>(sorted: seq<BufferedEvent<T>>, e: BufferedEvent<T>)
    ensures multiset(Insert(sorted, e)) == multiset(sorted) + multiset{e}
  {
    if sorted != [] && sorted[|sorted| - 1].sequence > e.sequence {
      var init := sorted[..|sorted| - 1];
      InsertAdds(init, e);
      assert sorted == init + [sorted[|sorted| - 1]];
    }
  }

  lemma {:induction false} InsertAscending<T>(sorted: seq<BufferedEvent<T>>, e: BufferedEvent<T>, bound: nat)
    requires Ascending(sorted) && e.sequence <= bound
    requires forall i :: 0 <= i < |sorted| ==> sorted[i].sequence <= bound
    ensures Ascending(Insert(sorted, e))
    ensures forall i :: 0 <= i < |Insert(sorted, e)| ==> Insert(sorted, e)[i].sequence <= bound
  {
    if sorted != [] && sorted[|sorted| - 1].sequence > e.sequence {
      InsertAscending(sorted[..|sorted| - 1], e, sorted[|sorted| - 1].sequence);
    }
  }

  lemma InsertKeepsOrder<T>(sorted: seq<BufferedEvent<T>>, e: BufferedEvent<T>)
    requires Ascending(sorted)
    ensures Ascending(Insert(sorted, e))
  {
    var last := if sorted == [] then 0 else sorted[|sorted| - 1].sequence;
    InsertAscending(sorted, e, if last < e.sequence then e.sequence else last);
  }

  /** `get_pending_events` loses nothing, adds nothing, and answers in sequence order. */
  lemma {:induction false} SortBySequenceCorrect<T>(events: seq<BufferedEvent<T>>)
    ensures Ascending(SortBySequence(events))
    ensures multiset(SortBySequence(events)) == multiset(events)
  {
    if events != [] {
      var init, e := events[..|events| - 1], events[|events| - 1];
      SortBySequenceCorrect(init);
      InsertAdds(SortBySequence(init), e);
      InsertKeepsOrder(SortBySequence(init), e);
      assert events == init + [e];
    }
  }

  // ---- file by file --------------------------------------------------------------

  /** The files in name order, one of each name. */
  ghost predicate InNameOrder<T>(dir: seq<LogFile<T>>) {
    forall i, j :: 0 <= i < j < |dir| ==> dir[i].name < dir[j].name
  }

  /** What the file of that name holds, if there is one. */
  function FileOf<T>(dir: seq<LogFile<T>>, name: nat): Option<seq<BufferedEvent<T>>> {
    if dir == [] then None else if dir[0].name == name then Some(dir[0].events) else FileOf(dir[1..], name)
  }

  lemma {:induction false} NoSuchFile<T>(dir: seq<LogFile<T>>, name: nat)
    ensures FileOf(dir, name).Some? <==> HasFile(dir, name)
  {
    if dir != [] {
      NoSuchFile(dir[1..], name);
      if i :| 0 <= i < |dir| && dir[i].name == name {
        assert i > 0 ==> dir[1..][i - 1].name == name;
      }
      if i :| 0 <= i < |dir[1..]| && dir[1..][i].name == name {
        assert dir[i + 1].name == name;
      }
    }
  }

  lemma {:induction false} CreateOrAppendOrder<T>(dir: seq<LogFile<T>>, name: nat, e: BufferedEvent<T>, low: int)
    requires InNameOrder(dir) && low < name && forall i :: 0 <= i < |dir| ==> low < dir[i].name
    ensures InNameOrder(CreateOrAppend(dir, name, e))
    ensures forall i :: 0 <= i < |CreateOrAppend(dir, name, e)| ==> low < CreateOrAppend(dir, name, e)[i].name
  {
    if dir != [] && name >= dir[0].name {
      if dir[0].name != name {
        CreateOrAppendOrder(dir[1..], name, e, dir[0].name);
      } else {
        assert forall i :: 1 <= i < |dir| ==> CreateOrAppend(dir, name, e)[i] == dir[i];
      }
    }
  }

  /** Opening a name adds one line to the end of its file, which need not exist, and leaves every
      other file alone. */
  lemma {:induction false} CreateOrAppendExactly<T>(dir: seq<LogFile<T>>, name: nat, e: BufferedEvent<T>, other: nat)
    requires InNameOrder(dir)
    ensures var after := CreateOrAppend(dir, name, e);
            && FileOf(after, name) == Some((if FileOf(dir, name).Some? then FileOf(dir, name).value else []) + [e])
            && (other != name ==> FileOf(after, other) == FileOf(dir, other))
  {
    var none: seq<BufferedEvent<T>> := [];
    assert none + [e] == [e];
    if dir != [] {
      if name < dir[0].name {
        NoSuchFile(dir, name);
        assert !HasFile(dir, name);
        assert ([LogFile(name, [e])] + dir)[1..] == dir;
      } else if dir[0].name != name {
        CreateOrAppendExactly(dir[1..], name, e, other);
        assert ([dir[0]] + CreateOrAppend(dir[1..], name, e))[1..] == CreateOrAppend(dir[1..], name, e);
      } else {
        assert CreateOrAppend(dir, name, e)[1..] == dir[1..];
      }
    }
  }

  /** A line written through an open handle goes to the end of its file, if that still exists. */
  lemma {:induction false} WriteThroughExactly<T>(dir: seq<LogFile<T>>, name: nat, e: BufferedEvent<T>, other: nat)
    ensures var after := WriteThrough(dir, name, e);
            && |after| == |dir| && (forall i :: 0 <= i < |dir| ==> after[i].name == dir[i].name)
            && FileOf(after, name) == (match FileOf(dir, name) case Some(events) => Some(events + [e]) case None => None)
            && (other != name ==> FileOf(after, other) == FileOf(dir, other))
  {
    if dir != [] {
      WriteThroughExactly(dir[1..], name, e, other);
      assert ([dir[0]] + WriteThrough(dir[1..], name, e))[1..] == WriteThrough(dir[1..], name, e);
    }
  }

  /** Synced files are deleted whole, and the others kept as they are. */
  lemma {:induction false} UnsyncedExactly<T>(dir: seq<LogFile<T>>, upTo: nat, name: nat)
    requires InNameOrder(dir)
    ensures InNameOrder(Unsynced(dir, upTo))
    ensures forall i :: 0 <= i < |Unsynced(dir, upTo)| ==> HasFile(dir, Unsynced(dir, upTo)[i].name)
    ensures FileOf(Unsynced(dir, upTo), name)
         == match FileOf(dir, name) {
              case None => None
              case Some(events) =>
                if forall i :: 0 <= i < |events| ==> events[i].sequence <= upTo then None else Some(events)
            }
  {
    if dir != [] {
      var rest := dir[1..];
      assert forall i :: 0 <= i < |rest| ==> rest[i] == dir[i + 1];
      UnsyncedExactly(rest, upTo, name);
      MaxSequenceBounds(dir[0].events);
      NoSuchFile(rest, name);
      var kept := Unsynced(rest, upTo);
      forall i | 0 <= i < |kept|
        ensures dir[0].name < kept[i].name && HasFile(dir, kept[i].name)
      {
        var k :| 0 <= k < |rest| && rest[k].name == kept[i].name;
        assert dir[k + 1].name == kept[i].name;
      }
      assert ([dir[0]] + kept)[1..] == kept;
      assert dir[0].name == name ==> !HasFile(rest, name) && FileOf(kept, name) == None;
      assert MaxSequence(dir[0].events) <= upTo <==>
               forall i :: 0 <= i < |dir[0].events| ==> dir[0].events[i].sequence <= upTo;
      assert HasFile(dir, dir[0].name);
    }
  }

  /** A mark deletes the synced files and nothing else, and closes and forgets the file being
      written exactly if that is one of them. */
  lemma MarkExactly<T>(b: Buffer<T>, upTo: nat)
    requires InNameOrder(b.dir)
    ensures var after := AfterMarkSynced(b, upTo);
            && after.sequence == b.sequence
            && (forall name :: FileOf(after.dir, name) == FileOf(Unsynced(b.dir, upTo), name))
            && (if b.current.Some? && FileOf(b.dir, b.current.value).Some? && FileOf(after.dir, b.current.value).None?
                then after.current == None && !after.handle
                else after.current == b.current && after.handle == b.handle)
  {
    if b.current.Some? {
      var name := b.current.value;
      UnsyncedExactly(b.dir, upTo, name);
      FileAt(b.dir, name);
      if FileOf(b.dir, name).Some? {
        MaxSequenceBounds(FileOf(b.dir, name).value);
      }
    }
  }

  lemma {:induction false} FileAt<T>(dir: seq<LogFile<T>>, name: nat)
    requires InNameOrder(dir)
    ensures forall i :: 0 <= i < |dir| && dir[i].name == name ==> FileOf(dir, name) == Some(dir[i].events)
    ensures FileOf(dir, name).Some? ==> exists i :: 0 <= i < |dir| && dir[i].name == name
  {
    if dir != [] {
      FileAt(dir[1..], name);
      forall i | 0 <= i < |dir| && dir[i].name == name
        ensures FileOf(dir, name) == Some(dir[i].events)
      {
        assert i > 0 ==> dir[1..][i - 1] == dir[i];
      }
      NoSuchFile(dir, name);
    }
  }

  // ---- the buffer as the program holds it --------------------------------------

  class LocalEventBuffer<T(==)> {
    var sequence: nat
    var dir: seq<LogFile<T>>
    var current: Option<nat>
    var handle: bool

    function View(): (b: Buffer<T>)
      reads this
    {
      Buffer(sequence, dir, current, handle)
    }

    /** `_init_sequence`: the highest number found in any file already there. */
    constructor (files: seq<LogFile<T>>)
      ensures View() == Restarted(files)
      ensures dir == files && current == None && !handle
      ensures forall i :: 0 <= i < |OnDisk(files)| ==> OnDisk(files)[i].sequence <= sequence
      ensures sequence == 0 || exists i :: 0 <= i < |OnDisk(files)| && OnDisk(files)[i].sequence == sequence
    {
      sequence, dir, current, handle := 0, files, None, false;
      new;
      var i := 0;
      while i < |files|
        invariant 0 <= i <= |files|
        invariant dir == files && current == None && !handle
        invariant sequence == MaxSequence(OnDisk(files[..i]))
      {
        var j := 0;
        ghost var before := sequence;
        while j < |files[i].events|
          invariant 0 <= j <= |files[i].events|
          invariant dir == files && current == None && !handle
          invariant var here := MaxSequence(files[i].events[..j]);
                    sequence == if before > here then before else here
        {
          MaxSequenceConcat(files[i].events[..j], [files[i].events[j]]);
          assert files[i].events[..j + 1] == files[i].events[..j] + [files[i].events[j]];
          if files[i].events[j].sequence > sequence {
            sequence := files[i].events[j].sequence;
          }
          j := j + 1;
        }
        assert files[i].events[..j] == files[i].events;
        assert files[..i + 1] == files[..i] + [files[i]];
        OnDiskConcat(files[..i], [files[i]]);
        assert OnDisk([files[i]]) == files[i].events;
        MaxSequenceConcat(OnDisk(files[..i]), files[i].events);
        i := i + 1;
      }
      assert files[..i] == files;
      MaxSequenceBounds(OnDisk(files));
    }

    /** The half of `buffer_event` under `_sequence_lock`. */
    method Allocate() returns (seqno: nat)
      modifies this`sequence
      ensures View() == AfterAllocate(old(View()))
      ensures seqno == sequence == old(sequence) + 1
    {
      sequence := sequence + 1;
      seqno := sequence;
    }

    /** The half of `buffer_event` under `_write_lock`. */
    method Write(e: BufferedEvent<T>, name: nat, full: bool)
      modifies this
      ensures View() == AfterWrite(old(View()), e, name, full)
      ensures sequence == old(sequence) && (handle <==> !full)
      ensures current == (if old(handle && current.Some?) then old(current) else Some(name))
      ensures old(handle && current.Some?) ==> dir == WriteThrough(old(dir), current.value, e)
      ensures !old(handle && current.Some?) ==> dir == CreateOrAppend(old(dir), name, e)
    {
      if handle && current.Some? {
        dir := WriteThrough(dir, current.value, e);
      } else {
        current := Some(name);
        dir := CreateOrAppend(dir, name, e);
      }
      handle := !full;
    }

    method BufferEvent(data: T, timestamp: int, name: nat, full: bool) returns (seqno: nat)
      modifies this
      ensures seqno == old(sequence) + 1
      ensures View() == AfterWrite(AfterAllocate(old(View())), BufferedEvent(data, timestamp, seqno), name, full)
    {
      seqno := Allocate();
      Write(BufferedEvent(data, timestamp, seqno), name, full);
    }

    method GetPendingEvents() returns (events: seq<BufferedEvent<T>>)
      ensures events == Pending(dir)
    {
      events := [];
      var i := 0;
      while i < |dir|
        invariant 0 <= i <= |dir|
        invariant events == OnDisk(dir[..i])
      {
        assert dir[..i + 1] == dir[..i] + [dir[i]];
        OnDiskConcat(dir[..i], [dir[i]]);
        assert OnDisk([dir[i]]) == dir[i].events;
        events := events + dir[i].events;
        i := i + 1;
      }
      assert dir[..i] == dir;
      events := SortBySequence(events);
    }

    method MarkSynced(upTo: nat)
      modifies this
      ensures View() == AfterMarkSynced(old(View()), upTo)
    {
      var files := dir;
      var path := current;
      var kept: seq<LogFile<T>> := [];
      var i := 0;
      while i < |files|
        invariant 0 <= i <= |files|
        invariant sequence == old(sequence) && dir == files == old(dir)
        invariant kept + Unsynced(files[i..], upTo) == Unsynced(files, upTo)
        invariant if current == path then handle == old(handle) else current == None && !handle
        invariant current != path <==> path.Some? && exists k :: 0 <= k < i && files[k].name == path.value
                                                                && MaxSequence(files[k].events) <= upTo
      {
        if MaxSequence(files[i].events) <= upTo {
          if current.Some? && files[i].name == current.value {
            current, handle := None, false;
          }
        } else {
          kept := kept + [files[i]];
        }
        i := i + 1;
      }
      dir := kept;
    }

    method Close()
      modifies this`handle
      ensures View() == old(View()).(handle := false)
    {
      handle := false;
    }
  }
}
