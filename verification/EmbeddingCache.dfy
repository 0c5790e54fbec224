/** The two-tier embedding cache (agent/embedding_service.py, `EmbeddingCache`): a least
    recently used memory tier over an optional database tier. */
module EmbeddingCache {
  import opened Wrappers
  import opened Floats

  /** The hash of model and text, taken as an opaque key. */
  type Key = string
  type Embedding = seq<Floating>

  /** The ordered dictionary, oldest key first, and the database table. */
  datatype Cache = Cache(order: seq<Key>, values: map<Key, Embedding>, store: map<Key, Embedding>)

  /** `persistent` is whether a database was configured. */
  datatype Config = Config(maxSize: nat, persistent: bool)

  function Without(order: seq<Key>, key: Key): seq<Key> {
    if order == [] then []
    else if order[0] == key then Without(order[1..], key)
    else [order[0]] + Without(order[1..], key)
  }

  /** Put `key` at the recent end. */
  function Touch(order: seq<Key>, key: Key): seq<Key> {
    Without(order, key) + [key]
  }

  function TakeLast(order: seq<Key>, n: nat): seq<Key> {
    if |order| <= n then order else order[|order| - n..]
  }

  function Restricted(values: map<Key, Embedding>, order: seq<Key>): map<Key, Embedding> {
    map k | k in values && k in order :: values[k]
  }

  /** The memory half of `put`. */
  function Remember(cfg: Config, c: Cache, key: Key, value: Embedding): Cache {
    var kept := TakeLast(Touch(c.order, key), cfg.maxSize);
    Cache(kept, Restricted(c.values[key := value], kept), c.store)
  }

  /** What can be read back from the text a vector is stored as: not nothing, and every element
      written as a JSON number, which an infinity or a NaN is not. */
  predicate Readable(value: Embedding) {
    value != [] && forall i :: 0 <= i < |value| ==> value[i].Number?
  }

  /** What the database answers for a key; a row that cannot be read counts as no answer. */
  function StoreAnswer(cfg: Config, c: Cache, key: Key, reachable: bool): Option<Embedding> {
    if cfg.persistent && reachable && key in c.store && Readable(c.store[key]) then Some(c.store[key]) else None
  }

  function Answer(cfg: Config, c: Cache, key: Key, reachable: bool): Option<Embedding> {
    if key in c.values then Some(c.values[key]) else StoreAnswer(cfg, c, key, reachable)
  }

  /** The memory half of `get`. */
  function AfterLookup(c: Cache, key: Key): Cache {
    if key in c.values then c.(order := Touch(c.order, key)) else c
  }

  /** The database half of `put`. */
  function AfterPersist(cfg: Config, c: Cache, key: Key, value: Embedding, reachable: bool): Cache {
    if cfg.persistent && reachable then c.(store := c.store[key := value]) else c
  }

  function AfterGet(cfg: Config, c: Cache, key: Key, reachable: bool): Cache {
    if key in c.values then AfterLookup(c, key)
    else match StoreAnswer(cfg, c, key, reachable)
      case Some(value) => Remember(cfg, c, key, value)
      case None => c
  }

  function AfterPut(cfg: Config, c: Cache, key: Key, value: Embedding, reachable: bool): Cache {
    AfterPersist(cfg, Remember(cfg, c, key, value), key, value, reachable)
  }

  ghost predicate Distinct(order: seq<Key>) {
    forall i, j :: 0 <= i < j < |order| ==> order[i] != order[j]
  }

  /** The dictionary and its order list the same keys, each once, and no more than fit. */
  ghost predicate Valid(cfg: Config, c: Cache) {
    && Distinct(c.order)
    && (forall k :: k in c.values <==> k in c.order)
    && |c.order| <= cfg.maxSize
  }

  lemma {:induction false} WithoutMembers(order: seq<Key>, key: Key)
    ensures forall k :: k in Without(order, key) <==> k in order && k != key
    ensures key !in order ==> Without(order, key) == order
  {
    if order != [] {
      WithoutMembers(order[1..], key);
      forall k
        ensures k in order <==> k == order[0] || k in order[1..]
      {
      }
    }
  }

  lemma DistinctCons(head: Key, tail: seq<Key>)
    requires Distinct(tail) && head !in tail
    ensures Distinct([head] + tail)
  {
  }

  lemma {:induction false} WithoutKeepsDistinct(order: seq<Key>, key: Key)
    requires Distinct(order)
    ensures Distinct(Without(order, key))
    ensures |Without(order, key)| == if key in order then |order| - 1 else |order|
  {
    if order != [] {
      var rest := order[1..];
      assert order[0] !in rest;
      WithoutKeepsDistinct(rest, key);
      WithoutMembers(rest, key);
      if order[0] != key {
        DistinctCons(order[0], Without(rest, key));
      }
    }
  }

  lemma {:induction false} WithoutConcat(a: seq<Key>, b: seq<Key>, key: Key)
    ensures Without(a + b, key) == Without(a, key) + Without(b, key)
  {
    if a == [] {
      assert a + b == b;
    } else {
      assert (a + b)[1..] == a[1..] + b;
      WithoutConcat(a[1..], b, key);
    }
  }

  lemma TouchKeeps(order: seq<Key>, key: Key)
    requires Distinct(order)
    ensures Distinct(Touch(order, key))
    ensures forall k :: k in Touch(order, key) <==> k in order || k == key
    ensures |Touch(order, key)| == if key in order then |order| else |order| + 1
  {
    WithoutMembers(order, key);
    WithoutKeepsDistinct(order, key);
  }

  lemma RememberKeepsValid(cfg: Config, c: Cache, key: Key, value: Embedding)
    requires Valid(cfg, c)
    ensures Valid(cfg, Remember(cfg, c, key, value))
  {
    TouchKeeps(c.order, key);
    var touched := Touch(c.order, key);
    forall k | k in TakeLast(touched, cfg.maxSize)
      ensures k in touched
    {
    }
  }

  /** What is remembered is the newest key, with its value, unless the cache has no room at all; of
      the others the oldest go, and those that stay keep their value. */
  lemma RememberedIsNewest(cfg: Config, c: Cache, key: Key, value: Embedding, after: Cache)
    requires after == Remember(cfg, c, key, value)
    ensures cfg.maxSize > 0 ==> && key in after.values && after.values[key] == value
                                && after.order != [] && after.order[|after.order| - 1] == key
    ensures forall k :: k in after.values && k != key ==> k in c.values && after.values[k] == c.values[k]
    ensures after.store == c.store
  {
    var touched := Touch(c.order, key);
    assert touched[|touched| - 1] == key;
    if cfg.maxSize > 0 {
      assert after.order[|after.order| - 1] == touched[|touched| - 1];
    }
  }

  lemma GetKeepsValid(cfg: Config, c: Cache, key: Key, reachable: bool)
    requires Valid(cfg, c)
    ensures Valid(cfg, AfterGet(cfg, c, key, reachable))
  {
    TouchKeeps(c.order, key);
    if key !in c.values && StoreAnswer(cfg, c, key, reachable).Some? {
      RememberKeepsValid(cfg, c, key, c.store[key]);
    }
  }

  /** Dropping the oldest key from both dictionary and order. */
  lemma EvictOldest(all: map<Key, Embedding>, order: seq<Key>)
    requires order != [] && Distinct(order)
    ensures Restricted(all, order) - {order[0]} == Restricted(all, order[1..])
  {
    var rest := order[1..];
    assert order[0] !in rest;
    forall k
      ensures k in order <==> k == order[0] || k in rest
    {
    }
  }

  // ---- the program ----------------------------------------------------------------

  class EmbeddingCache {
    const cfg: Config
    var order: seq<Key>
    var values: map<Key, Embedding>
    var store: map<Key, Embedding>
    var hits: nat
    var misses: nat
    var dbHits: nat

    function View(): (c: Cache)
      reads this
    {
      Cache(order, values, store)
    }

    constructor (cfg: Config, store: map<Key, Embedding>)
      ensures this.cfg == cfg && View() == Cache([], map[], store) && Valid(cfg, View())
      ensures hits == misses == dbHits == 0
    {
      this.cfg, this.store := cfg, store;
      order, values := [], map[];
      hits, misses, dbHits := 0, 0, 0;
    }

    /** Under the lock: store, move to the recent end, evict from the old end. */
    method PutInMemory(key: Key, value: Embedding)
      requires Valid(cfg, View())
      modifies this`order, this`values
      ensures View() == Remember(cfg, old(View()), key, value)
    {
      values := values[key := value];
      order := Touch(order, key);
      TouchKeeps(old(order), key);
      ghost var touched, all, gone := order, values, 0;
      assert Restricted(all, touched) == all;
      while |order| > cfg.maxSize
        invariant 0 <= gone <= |touched| && order == touched[gone..]
        invariant gone == 0 || |order| >= cfg.maxSize
        invariant values == Restricted(all, order)
        decreases |order|
      {
        EvictOldest(all, order);
        values := values - {order[0]};
        order := order[1..];
        gone := gone + 1;
      }
    }

    /** Under the lock: the memory tier's answer, moved to the recent end. */
    method Lookup(key: Key) returns (found: Option<Embedding>)
      modifies this`order, this`hits
      ensures found == if key in values then Some(values[key]) else None
      ensures View() == AfterLookup(old(View()), key)
      ensures hits == old(hits) + (if found.Some? then 1 else 0)
    {
      if key !in values {
        return None;
      }
      order := Touch(order, key);
      hits := hits + 1;
      return Some(values[key]);
    }

    /** Without the lock: the database's answer. */
    method Fetch(key: Key, reachable: bool) returns (found: Option<Embedding>)
      ensures found == StoreAnswer(cfg, View(), key, reachable)
      ensures found.Some? <==> && cfg.persistent && reachable && key in store && store[key] != []
                               && forall i :: 0 <= i < |store[key]| ==> store[key][i].Number?
      ensures found.Some? ==> found == Some(store[key])
    {
      if !cfg.persistent || !reachable || key !in store || !Readable(store[key]) {
        return None;
      }
      return Some(store[key]);
    }

    /** Without the lock: the database's row. */
    method Persist(key: Key, value: Embedding, reachable: bool)
      modifies this`store
      ensures View() == AfterPersist(cfg, old(View()), key, value, reachable)
      ensures store == if cfg.persistent && reachable then old(store)[key := value] else old(store)
    {
      if cfg.persistent && reachable {
        store := store[key := value];
      }
    }

    /** The parts of a get, one after the other, when no other call comes between. */
    method Get(key: Key, reachable: bool) returns (found: Option<Embedding>)
      requires Valid(cfg, View())
      modifies this
      ensures View() == AfterGet(cfg, old(View()), key, reachable) && Valid(cfg, View())
      ensures found == Answer(cfg, old(View()), key, reachable)
      ensures hits + misses + dbHits == old(hits + misses + dbHits) + 1
      ensures misses == old(misses) + (if found.None? then 1 else 0)
      ensures hits == old(hits) + (if key in old(values) then 1 else 0)
      ensures key in old(values) ==> found == Some(old(values)[key])
      ensures key !in old(values) && found.Some? ==> && found == (if key in store then Some(store[key]) else None)
                                                     && (cfg.maxSize > 0 ==> key in values && values[key] == found.value)
      ensures store == old(store)
    {
      GetKeepsValid(cfg, View(), key, reachable);
      found := Lookup(key);
      if found.None? {
        found := Fetch(key, reachable);
        if found.Some? {
          dbHits := dbHits + 1;
          RememberedIsNewest(cfg, View(), key, found.value, Remember(cfg, View(), key, found.value));
          PutInMemory(key, found.value);
        } else {
          misses := misses + 1;
        }
      }
    }

    /** The two parts of a put, when no other call comes between. */
    method Put(key: Key, value: Embedding, reachable: bool)
      requires Valid(cfg, View())
      modifies this
      ensures View() == AfterPut(cfg, old(View()), key, value, reachable) && Valid(cfg, View())
      ensures cfg.maxSize > 0 ==> key in values && values[key] == value && order != [] && order[|order| - 1] == key
      ensures store == if cfg.persistent && reachable then old(store)[key := value] else old(store)
    {
      RememberKeepsValid(cfg, View(), key, value);
      RememberedIsNewest(cfg, View(), key, value, Remember(cfg, View(), key, value));
      PutInMemory(key, value);
      Persist(key, value, reachable);
    }

    method Clear()
      modifies this
      ensures View() == Cache([], map[], old(store)) && Valid(cfg, View())
    {
      order, values := [], map[];
    }
  }

  // ---- traces ---------------------------------------------------------------------

  /** `reachable` says whether the database call, if one is made, succeeds. */
  datatype Op = Get(key: Key, reachable: bool) | Put(key: Key, value: Embedding, reachable: bool) | Clear

  function Step(cfg: Config, c: Cache, op: Op): Cache {
    match op
    case Get(key, reachable) => AfterGet(cfg, c, key, reachable)
    case Put(key, value, reachable) => AfterPut(cfg, c, key, value, reachable)
    case Clear => Cache([], map[], c.store)
  }

  function Empty(store: map<Key, Embedding>): Cache {
    Cache([], map[], store)
  }

  function After(cfg: Config, store: map<Key, Embedding>, trace: seq<Op>): Cache {
    if trace == [] then Empty(store) else Step(cfg, After(cfg, store, trace[..|trace| - 1]), trace[|trace| - 1])
  }

  /** The keys the trace has put, or got an answer for, since the memory was last cleared. */
  function Touches(cfg: Config, store: map<Key, Embedding>, trace: seq<Op>): seq<Key> {
    if trace == [] then []
    else
      var before := Touches(cfg, store, trace[..|trace| - 1]);
      match trace[|trace| - 1]
      case Get(key, reachable) =>
        if Answer(cfg, After(cfg, store, trace[..|trace| - 1]), key, reachable).Some? then before + [key] else before
      case Put(key, _, _) => before + [key]
      case Clear => []
  }

  /** The distinct keys of a list, in the order of their last appearance. */
  function Recency(touches: seq<Key>): seq<Key> {
    if touches == [] then [] else Touch(Recency(touches[..|touches| - 1]), touches[|touches| - 1])
  }

  lemma {:induction false} RecencyDistinct(touches: seq<Key>)
    ensures Distinct(Recency(touches))
    ensures forall k :: k in Recency(touches) <==> k in touches
    decreases |touches|
  {
    if touches != [] {
      var before := touches[..|touches| - 1];
      RecencyDistinct(before);
      TouchKeeps(Recency(before), touches[|touches| - 1]);
      assert touches == before + [touches[|touches| - 1]];
    }
  }

  lemma LastOfConcat(p: seq<Key>, q: seq<Key>, n: nat)
    requires n <= |q|
    ensures TakeLast(p + q, n) == TakeLast(q, n)
  {
  }

  /** Cutting to the recent end commutes with touching a key. */
  lemma TakeLastTouch(order: seq<Key>, key: Key, n: nat)
    requires Distinct(order)
    ensures TakeLast(Touch(TakeLast(order, n), key), n) == TakeLast(Touch(order, key), n)
  {
    if |order| > n {
      var cut := |order| - n;
      var a, b := order[..cut], order[cut..];
      assert order == a + b;
      WithoutConcat(a, b, key);
      assert Distinct(b);
      WithoutKeepsDistinct(b, key);
      assert Touch(order, key) == Without(a, key) + Touch(b, key);
      LastOfConcat(Without(a, key), Touch(b, key), n);
    }
  }

  /** The memory tier holds exactly the last `maxSize` distinct keys touched, oldest first. */
  lemma {:induction false} MemoryIsMostRecent(cfg: Config, store: map<Key, Embedding>, trace: seq<Op>)
    ensures Valid(cfg, After(cfg, store, trace))
    ensures After(cfg, store, trace).order == TakeLast(Recency(Touches(cfg, store, trace)), cfg.maxSize)
    decreases |trace|
  {
    if trace != [] {
      var before := trace[..|trace| - 1];
      MemoryIsMostRecent(cfg, store, before);
      var c := After(cfg, store, before);
      var touches := Touches(cfg, store, before);
      RecencyDistinct(touches);
      match trace[|trace| - 1]
      case Get(key, reachable) =>
        GetKeepsValid(cfg, c, key, reachable);
        TouchIsLast(touches, key);
        TakeLastTouch(Recency(touches), key, cfg.maxSize);
        TouchKeeps(c.order, key);
      case Put(key, value, reachable) =>
        RememberKeepsValid(cfg, c, key, value);
        TouchIsLast(touches, key);
        TakeLastTouch(Recency(touches), key, cfg.maxSize);
      case Clear =>
    }
  }

  lemma TouchIsLast(touches: seq<Key>, key: Key)
    ensures Recency(touches + [key]) == Touch(Recency(touches), key)
  {
    assert (touches + [key])[..|touches|] == touches;
  }

  // ---- two tiers as one map -----------------------------------------------------------

  /** One unbounded map: the store, overlaid with every put. */
  function AsMap(store: map<Key, Embedding>, trace: seq<Op>): map<Key, Embedding> {
    if trace == [] then store
    else
      var before := AsMap(store, trace[..|trace| - 1]);
      match trace[|trace| - 1]
      case Put(key, value, _) => before[key := value]
      case _ => before
  }

  ghost predicate DatabaseUp(trace: seq<Op>) {
    forall i :: 0 <= i < |trace| ==> !trace[i].Clear? ==> trace[i].reachable
  }

  /** The store is the map, and the memory tier only ever repeats what the store holds. */
  ghost predicate Overlays(c: Cache, m: map<Key, Embedding>) {
    c.store == m && forall k :: k in c.values ==> k in m && c.values[k] == m[k]
  }

  lemma {:induction false} TraceOverlays(cfg: Config, store: map<Key, Embedding>, trace: seq<Op>)
    requires cfg.persistent && DatabaseUp(trace)
    ensures Overlays(After(cfg, store, trace), AsMap(store, trace))
    decreases |trace|
  {
    if trace != [] {
      var before := trace[..|trace| - 1];
      assert forall i :: 0 <= i < |before| ==> before[i] == trace[i];
      TraceOverlays(cfg, store, before);
      StepOverlays(cfg, After(cfg, store, before), trace[|trace| - 1], AsMap(store, before));
    }
  }

  lemma StepOverlays(cfg: Config, c: Cache, op: Op, m: map<Key, Embedding>)
    requires cfg.persistent && Overlays(c, m) && (!op.Clear? ==> op.reachable)
    ensures Overlays(Step(cfg, c, op), if op.Put? then m[op.key := op.value] else m)
  {
  }

  /** With a database whose calls succeed, and calls on the cache that do not overlap, the two
      tiers answer a get as one unbounded map would, whatever has been evicted, if and only if the vector last put under the key can be read
      back from the database or is still among the last `maxSize` distinct keys touched. */
  lemma TwoTiersAreOneMap(cfg: Config, store: map<Key, Embedding>, trace: seq<Op>, key: Key)
    requires cfg.persistent && DatabaseUp(trace)
    ensures var m := AsMap(store, trace);
            Answer(cfg, After(cfg, store, trace), key, true) == (if key in m then Some(m[key]) else None)
            <==> (key in m && !Readable(m[key]) ==> key in TakeLast(Recency(Touches(cfg, store, trace)), cfg.maxSize))
  {
    TraceOverlays(cfg, store, trace);
    MemoryIsMostRecent(cfg, store, trace);
  }

  ghost predicate Repeats(c: Cache, m: map<Key, Embedding>) {
    c.store == map[] && forall k :: k in c.values ==> k in m && c.values[k] == m[k]
  }

  lemma PutRepeats(cfg: Config, c: Cache, key: Key, value: Embedding, reachable: bool, m: map<Key, Embedding>)
    requires !cfg.persistent && Repeats(c, m)
    ensures Repeats(AfterPut(cfg, c, key, value, reachable), m[key := value])
  {
  }

  lemma {:induction false} TraceRepeats(cfg: Config, trace: seq<Op>)
    requires !cfg.persistent
    ensures Repeats(After(cfg, map[], trace), AsMap(map[], trace))
    decreases |trace|
  {
    if trace != [] {
      var before := trace[..|trace| - 1];
      TraceRepeats(cfg, before);
      match trace[|trace| - 1]
      case Put(key, value, reachable) =>
        PutRepeats(cfg, After(cfg, map[], before), key, value, reachable, AsMap(map[], before));
      case _ =>
    }
  }

  /** Without a database, a get answers exactly for the last `maxSize` distinct keys touched,
      with the value last put under them. */
  lemma MemoryAloneHoldsLastPut(cfg: Config, trace: seq<Op>, key: Key)
    requires !cfg.persistent
    ensures key in TakeLast(Recency(Touches(cfg, map[], trace)), cfg.maxSize) ==> key in AsMap(map[], trace)
    ensures Answer(cfg, After(cfg, map[], trace), key, true)
         == if key in TakeLast(Recency(Touches(cfg, map[], trace)), cfg.maxSize)
            then Some(AsMap(map[], trace)[key]) else None
  {
    MemoryIsMostRecent(cfg, map[], trace);
    TraceRepeats(cfg, trace);
  }

  /** It happens: a vector with an element that is no number is answered while it is in memory,
      and not any more once another key has pushed it out, although the database has its row. */
  lemma UnreadableVectorIsForgotten(key: Key, other: Key, value: Embedding)
    requires key != other
    ensures var cfg := Config(1, true);
            var once := [Put(key, [NaN], true)];
            var twice := once + [Put(other, value, true)];
            && Answer(cfg, After(cfg, map[], once), key, true) == Some([NaN])
            && Answer(cfg, After(cfg, map[], twice), key, true) == None
            && After(cfg, map[], twice).store[key] == [NaN]
  {
    var cfg := Config(1, true);
    var put, push := Put(key, [NaN], true), Put(other, value, true);
    var once := [] + [put];
    assert once[..0] == [] && once == [put];
    assert Touch([], key) == [key] && [key][0] == key;
    assert After(cfg, map[], once) == Cache([key], map[key := [NaN]], map[key := [NaN]]);
    assert (once + [push])[..1] == once;
    assert Without([key], other) == [key] by {
      assert [key][1..] == [];
    }
    assert Touch([key], other) == [key, other];
    assert TakeLast([key, other], 1) == [other];
    assert key !in [other];
    assert !Readable([NaN]) by {
      assert [NaN][0] == NaN;
    }
  }
}
