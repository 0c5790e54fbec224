/** The embedding cache under calls that overlap (agent/embedding_service.py, `EmbeddingCache`): the
    lock is held for the memory tier only, so a get has up to three parts and a put has two. */
module CacheOverlaps {
  import opened Wrappers
  import opened EmbeddingCache

  /** Where a call is: about to read the database, holding what it read there, or about to write
      the database. */
  datatype Call = Reading(key: Key) | Promoting(key: Key, value: Embedding) | Storing(key: Key, value: Embedding) | Done

  datatype State = State(c: Cache, calls: seq<Call>)

  /** `reachable` says whether the database call succeeds. */
  datatype Step =
    | GetStarts(key: Key)
    | GetReads(t: nat, reachable: bool)
    | GetPromotes(t: nat)
    | PutStarts(key: Key, value: Embedding)
    | PutStores(t: nat, reachable: bool)
    | Clears

  predicate Enabled(s: State, step: Step) {
    match step
    case GetReads(t, _) => t < |s.calls| && s.calls[t].Reading?
    case GetPromotes(t) => t < |s.calls| && s.calls[t].Promoting?
    case PutStores(t, _) => t < |s.calls| && s.calls[t].Storing?
    case _ => true
  }

  function Next(cfg: Config, s: State, step: Step): State
    requires Enabled(s, step)
  {
    match step
    case GetStarts(key) =>
      State(AfterLookup(s.c, key), s.calls + [if key in s.c.values then Done else Reading(key)])
    case GetReads(t, reachable) =>
      var found := StoreAnswer(cfg, s.c, s.calls[t].key, reachable);
      s.(calls := s.calls[t := if found.Some? then Promoting(s.calls[t].key, found.value) else Done])
    case GetPromotes(t) =>
      State(Remember(cfg, s.c, s.calls[t].key, s.calls[t].value), s.calls[t := Done])
    case PutStarts(key, value) =>
      State(Remember(cfg, s.c, key, value), s.calls + [Storing(key, value)])
    case PutStores(t, reachable) =>
      State(AfterPersist(cfg, s.c, s.calls[t].key, s.calls[t].value, reachable), s.calls[t := Done])
    case Clears => s.(c := Cache([], map[], s.c.store))
  }

  function After(cfg: Config, store: map<Key, Embedding>, run: seq<Step>): State {
    if run == [] then State(Empty(store), [])
    else
      var before := After(cfg, store, run[..|run| - 1]);
      if Enabled(before, run[|run| - 1]) then Next(cfg, before, run[|run| - 1]) else before
  }

  ghost predicate DatabaseUp(run: seq<Step>) {
    forall i :: 0 <= i < |run| && (run[i].GetReads? || run[i].PutStores?) ==> run[i].reachable
  }

  // ---- when the memory tier contradicts the database --------------------------------------

  predicate StoresAt(s: State, t: nat, key: Key) {
    t < |s.calls| && s.calls[t].Storing? && s.calls[t].key == key
  }

  /** Some put under the key has reached the memory tier and not yet the database. */
  ghost predicate PutPending(s: State, key: Key) {
    exists t: nat :: StoresAt(s, t, key)
  }

  ghost predicate Agrees(s: State, key: Key) {
    PutPending(s, key) || (key in s.c.values ==> key in s.c.store && s.c.values[key] == s.c.store[key])
  }

  ghost predicate Coherent(s: State) {
    forall key :: Agrees(s, key)
  }

  /** A get puts back a vector that the database no longer has under its key; or the last put of a
      key to reach the database is not the last to have reached the memory tier. */
  ghost predicate GoesStale(cfg: Config, s: State, step: Step)
    requires Enabled(s, step)
  {
    match step
    case GetPromotes(t) =>
      var key := s.calls[t].key;
      cfg.maxSize > 0 && !PutPending(s, key) && !(key in s.c.store && s.c.store[key] == s.calls[t].value)
    case PutStores(t, _) =>
      var key := s.calls[t].key;
      && (forall u: nat :: StoresAt(s, u, key) ==> u == t)
      && key in s.c.values && s.c.values[key] != s.calls[t].value
    case _ => false
  }

  lemma RememberAt(cfg: Config, c: Cache, key: Key, value: Embedding, k: Key)
    ensures var after := Remember(cfg, c, key, value);
            && after.store == c.store
            && (k in after.values ==> k == key || k in c.values)
            && (k in after.values ==> after.values[k] == if k == key then value else c.values[k])
            && (cfg.maxSize > 0 ==> key in after.values)
  {
    var touched := Touch(c.order, key);
    assert touched[|touched| - 1] == key;
    if cfg.maxSize > 0 {
      var kept := TakeLast(touched, cfg.maxSize);
      assert kept[|kept| - 1] == key;
    }
  }

  lemma PendingAfter(cfg: Config, s: State, step: Step, key: Key)
    requires Enabled(s, step)
    ensures PutPending(Next(cfg, s, step), key) <==>
              match step
              case PutStarts(k, _) => k == key || PutPending(s, key)
              case PutStores(t, _) => exists u: nat :: u != t && StoresAt(s, u, key)
              case _ => PutPending(s, key)
  {
    var after := Next(cfg, s, step);
    match step
    case PutStarts(k, _) =>
      assert StoresAt(after, |s.calls|, k);
      assert forall u: nat :: u < |s.calls| ==> StoresAt(after, u, key) == StoresAt(s, u, key);
    case PutStores(t, _) =>
      assert forall u: nat :: StoresAt(after, u, key) <==> u != t && StoresAt(s, u, key);
    case _ =>
      assert forall u: nat :: StoresAt(after, u, key) == StoresAt(s, u, key);
  }

  lemma StepAgrees(cfg: Config, s: State, step: Step, key: Key)
    requires cfg.persistent && Enabled(s, step) && Coherent(s)
    requires step.PutStores? ==> step.reachable
    ensures Agrees(Next(cfg, s, step), key) <==>
              !(GoesStale(cfg, s, step) && s.calls[step.t].key == key)
  {
    PendingAfter(cfg, s, step, key);
    assert Agrees(s, key);
    match step
    case GetPromotes(t) =>
      RememberAt(cfg, s.c, s.calls[t].key, s.calls[t].value, key);
    case PutStarts(k, value) =>
      RememberAt(cfg, s.c, k, value, key);
    case PutStores(t, _) =>
      assert StoresAt(s, t, s.calls[t].key);
    case _ =>
  }

  lemma StepStaysCoherent(cfg: Config, s: State, step: Step)
    requires cfg.persistent && Enabled(s, step) && Coherent(s)
    requires step.PutStores? ==> step.reachable
    ensures Coherent(Next(cfg, s, step)) <==> !GoesStale(cfg, s, step)
  {
    forall key
      ensures Agrees(Next(cfg, s, step), key) <==> !(GoesStale(cfg, s, step) && s.calls[step.t].key == key)
    {
      StepAgrees(cfg, s, step, key);
    }
    if GoesStale(cfg, s, step) {
      assert !Agrees(Next(cfg, s, step), s.calls[step.t].key);
    }
  }

  ghost predicate AlwaysCoherent(cfg: Config, store: map<Key, Embedding>, run: seq<Step>) {
    Coherent(After(cfg, store, run)) && (run == [] || AlwaysCoherent(cfg, store, run[..|run| - 1]))
  }

  ghost predicate NeverStale(cfg: Config, store: map<Key, Embedding>, run: seq<Step>) {
    run == [] || (&& NeverStale(cfg, store, run[..|run| - 1])
                  && var before := After(cfg, store, run[..|run| - 1]);
                  Enabled(before, run[|run| - 1]) ==> !GoesStale(cfg, before, run[|run| - 1]))
  }

  /** However gets, puts and clears overlap, with a database whose calls succeed, the memory tier
      never contradicts the database on a key with no put under way, if and only if no get puts
      back a vector that has been replaced and no two puts cross. */
  lemma {:induction false} CoherentExactly(cfg: Config, store: map<Key, Embedding>, run: seq<Step>)
    requires cfg.persistent && DatabaseUp(run)
    ensures AlwaysCoherent(cfg, store, run) <==> NeverStale(cfg, store, run)
    decreases |run|
  {
    if run != [] {
      var front, step := run[..|run| - 1], run[|run| - 1];
      var before := After(cfg, store, front);
      assert forall i :: 0 <= i < |front| ==> front[i] == run[i];
      CoherentExactly(cfg, store, front);
      if AlwaysCoherent(cfg, store, front) && Enabled(before, step) {
        StepStaysCoherent(cfg, before, step);
      }
    }
  }

  /** What a get with no put under way on its key is answered, in a run that never goes stale: the
      vector that reached the database last, if and only if that can be read back or the memory
      tier still has it. */
  lemma OverlappingAnswers(cfg: Config, store: map<Key, Embedding>, run: seq<Step>, key: Key)
    requires cfg.persistent && DatabaseUp(run) && NeverStale(cfg, store, run)
    requires !PutPending(After(cfg, store, run), key)
    ensures var c := After(cfg, store, run).c;
            Answer(cfg, c, key, true) == (if key in c.store then Some(c.store[key]) else None)
            <==> (key in c.store && !Readable(c.store[key]) ==> key in c.values)
  {
    CoherentExactly(cfg, store, run);
    assert Agrees(After(cfg, store, run), key);
  }

  // ---- calls on one key that exclude each other ----------------------------------------------

  predicate CallsAt(s: State, t: nat, key: Key) {
    t < |s.calls| && !s.calls[t].Done? && s.calls[t].key == key
  }

  /** A put starts when no call on its key is under way, and a get when no put on its key is. */
  ghost predicate Excludes(s: State, step: Step) {
    match step
    case GetStarts(key) => !PutPending(s, key)
    case PutStarts(key, _) => forall t: nat :: !CallsAt(s, t, key)
    case _ => true
  }

  ghost predicate Exclusive(cfg: Config, store: map<Key, Embedding>, run: seq<Step>) {
    run == [] || (&& Exclusive(cfg, store, run[..|run| - 1])
                  && Excludes(After(cfg, store, run[..|run| - 1]), run[|run| - 1]))
  }

  predicate CallOk(s: State, t: nat)
    requires t < |s.calls|
  {
    match s.calls[t]
    case Promoting(key, value) => key in s.c.store && s.c.store[key] == value
    case Storing(key, value) => key in s.c.values ==> s.c.values[key] == value
    case _ => true
  }

  /** A put under way is the only call under way on its key. */
  ghost predicate CallsInv(s: State) {
    && (forall t: nat :: t < |s.calls| ==> CallOk(s, t))
    && (forall t: nat, u: nat, key :: StoresAt(s, t, key) && CallsAt(s, u, key) ==> u == t)
  }

  lemma StepKeepsCalls(cfg: Config, s: State, step: Step)
    requires cfg.persistent && Enabled(s, step) && CallsInv(s) && Excludes(s, step)
    requires step.PutStores? ==> step.reachable
    ensures CallsInv(Next(cfg, s, step)) && !GoesStale(cfg, s, step)
  {
    var after := Next(cfg, s, step);
    forall t: nat | t < |after.calls|
      ensures CallOk(after, t)
    {
      if t < |s.calls| {
        assert CallOk(s, t);
        assert !s.calls[t].Done? ==> CallsAt(s, t, s.calls[t].key);
        assert s.calls[t].Storing? ==> StoresAt(s, t, s.calls[t].key);
      }
      match step
      case GetPromotes(g) =>
        assert CallsAt(s, g, s.calls[g].key);
        if !after.calls[t].Done? {
          RememberAt(cfg, s.c, s.calls[g].key, s.calls[g].value, after.calls[t].key);
        }
      case PutStarts(k, value) =>
        if !after.calls[t].Done? {
          RememberAt(cfg, s.c, k, value, after.calls[t].key);
        }
      case PutStores(p, _) =>
        assert StoresAt(s, p, s.calls[p].key);
      case _ =>
    }
    CallsStayApart(cfg, s, step);
    if step.GetPromotes? || step.PutStores? {
      assert CallOk(s, step.t);
    }
  }

  lemma CallsStayApart(cfg: Config, s: State, step: Step)
    requires Enabled(s, step) && CallsInv(s) && Excludes(s, step)
    ensures var after := Next(cfg, s, step);
            forall t: nat, u: nat, key :: StoresAt(after, t, key) && CallsAt(after, u, key) ==> u == t
  {
    var after := Next(cfg, s, step);
    forall t: nat, u: nat, key | StoresAt(after, t, key) && CallsAt(after, u, key)
      ensures u == t
    {
      if t < |s.calls| {
        assert StoresAt(s, t, key) && CallsAt(s, t, key);
      }
      if u < |s.calls| {
        assert CallsAt(s, u, key);
      }
    }
  }

  lemma {:induction false} ExclusiveKeepsCalls(cfg: Config, store: map<Key, Embedding>, run: seq<Step>)
    requires cfg.persistent && DatabaseUp(run) && Exclusive(cfg, store, run)
    ensures CallsInv(After(cfg, store, run)) && NeverStale(cfg, store, run)
    decreases |run|
  {
    if run != [] {
      var front, step := run[..|run| - 1], run[|run| - 1];
      assert forall i :: 0 <= i < |front| ==> front[i] == run[i];
      ExclusiveKeepsCalls(cfg, store, front);
      if Enabled(After(cfg, store, front), step) {
        StepKeepsCalls(cfg, After(cfg, store, front), step);
      }
    }
  }

  // ---- runs that go stale ----------------------------------------------------------------------

  lemma OneStep(cfg: Config, store: map<Key, Embedding>, run: seq<Step>, step: Step)
    requires Enabled(After(cfg, store, run), step)
    ensures After(cfg, store, run + [step]) == Next(cfg, After(cfg, store, run), step)
  {
    assert (run + [step])[..|run|] == run;
  }

  lemma RememberOnly(cfg: Config, c: Cache, key: Key, value: Embedding)
    requires cfg.maxSize > 0 && (c.order == [] || c.order == [key]) && c.values.Keys <= {key}
    ensures Remember(cfg, c, key, value) == Cache([key], map[key := value], c.store)
  {
    assert Without(c.order, key) == [] by {
      assert [key][1..] == [];
    }
    RememberAt(cfg, c, key, value, key);
    assert Restricted(c.values[key := value], [key]) == map[key := value];
  }

  /** One vector in each tier, which holds no other key. */
  function Tiers(key: Key, memory: Embedding, database: Embedding): Cache {
    Cache([key], map[key := memory], map[key := database])
  }

  const SMALL := Config(1, true)

  lemma ReadThenReplaced(key: Key, first: Embedding, second: Embedding, c: Cache)
    requires Readable(first) && c == Empty(map[key := first])
    ensures Next(SMALL, State(c, []), GetStarts(key)) == State(c, [Reading(key)])
    ensures Next(SMALL, State(c, [Reading(key)]), GetReads(0, true)) == State(c, [Promoting(key, first)])
    ensures Next(SMALL, State(c, [Promoting(key, first)]), PutStarts(key, second))
         == State(Tiers(key, second, first), [Promoting(key, first), Storing(key, second)])
  {
    RememberOnly(SMALL, c, key, second);
  }

  lemma ReplacedThenPutBack(key: Key, first: Embedding, second: Embedding)
    ensures Next(SMALL, State(Tiers(key, second, first), [Promoting(key, first), Storing(key, second)]),
                 PutStores(1, true))
         == State(Tiers(key, second, second), [Promoting(key, first), Done])
    ensures Next(SMALL, State(Tiers(key, second, second), [Promoting(key, first), Done]), GetPromotes(0))
         == State(Tiers(key, first, second), [Done, Done])
  {
    RememberOnly(SMALL, Tiers(key, second, second), key, first);
    assert map[key := first][key := second] == map[key := second];
  }

  /** A get reads the database, a put replaces the vector in both tiers, and then the get puts the
      old one back: with no call under way, it is answered although the database has the new. */
  lemma OldVectorPutBack(key: Key, first: Embedding, second: Embedding)
    requires Readable(first) && first != second
    ensures var run := [GetStarts(key)] + [GetReads(0, true)] + [PutStarts(key, second)] + [PutStores(1, true)]
                       + [GetPromotes(0)];
            var s := After(SMALL, map[key := first], run);
            s == State(Tiers(key, first, second), [Done, Done]) && Answer(SMALL, s.c, key, true) == Some(first)
  {
    var store := map[key := first];
    var r1 := [GetStarts(key)];
    var r2 := r1 + [GetReads(0, true)];
    var r3 := r2 + [PutStarts(key, second)];
    var r4 := r3 + [PutStores(1, true)];
    ReadThenReplaced(key, first, second, Empty(store));
    ReplacedThenPutBack(key, first, second);
    OneStep(SMALL, store, [], GetStarts(key));
    assert [] + [GetStarts(key)] == r1;
    OneStep(SMALL, store, r1, GetReads(0, true));
    OneStep(SMALL, store, r2, PutStarts(key, second));
    OneStep(SMALL, store, r3, PutStores(1, true));
    OneStep(SMALL, store, r4, GetPromotes(0));
  }

  lemma CrossingStarts(key: Key, first: Embedding, second: Embedding)
    ensures Next(SMALL, State(Empty(map[]), []), PutStarts(key, first))
         == State(Cache([key], map[key := first], map[]), [Storing(key, first)])
    ensures Next(SMALL, State(Cache([key], map[key := first], map[]), [Storing(key, first)]), PutStarts(key, second))
         == State(Cache([key], map[key := second], map[]), [Storing(key, first), Storing(key, second)])
  {
    RememberOnly(SMALL, Empty(map[]), key, first);
    RememberOnly(SMALL, Cache([key], map[key := first], map[]), key, second);
  }

  lemma CrossingStores(key: Key, first: Embedding, second: Embedding, memory: map<Key, Embedding>)
    requires memory == map[key := second]
    ensures Next(SMALL, State(Cache([key], memory, map[]), [Storing(key, first), Storing(key, second)]),
                 PutStores(1, true))
         == State(Tiers(key, second, second), [Storing(key, first), Done])
    ensures Next(SMALL, State(Tiers(key, second, second), [Storing(key, first), Done]), PutStores(0, true))
         == State(Tiers(key, second, first), [Done, Done])
  {
    assert memory[key := first] == map[key := first];
  }

  /** Two puts under one key cross: each tier ends with another vector. */
  lemma CrossedPuts(key: Key, first: Embedding, second: Embedding)
    requires first != second
    ensures var run := [PutStarts(key, first)] + [PutStarts(key, second)] + [PutStores(1, true)] + [PutStores(0, true)];
            var s := After(SMALL, map[], run);
            s == State(Tiers(key, second, first), [Done, Done]) && Answer(SMALL, s.c, key, true) == Some(second)
  {
    var r1 := [PutStarts(key, first)];
    var r2 := r1 + [PutStarts(key, second)];
    var r3 := r2 + [PutStores(1, true)];
    CrossingStarts(key, first, second);
    CrossingStores(key, first, second, map[key := second]);
    OneStep(SMALL, map[], [], PutStarts(key, first));
    assert [] + [PutStarts(key, first)] == r1;
    OneStep(SMALL, map[], r1, PutStarts(key, second));
    OneStep(SMALL, map[], r2, PutStores(1, true));
    OneStep(SMALL, map[], r3, PutStores(0, true));
  }
}
