/** Services that fail together (agent/knowledge_base.py, `drift_failed_services` and
    `service_failure_patterns`). */
module FailurePatterns {
  import opened Wrappers
  import opened Text

  /** An unordered pair of services, written in order. */
  type Pair = (string, string)

  /** A drift event, with the pod or service names that its details carry. */
  datatype Drift =
    | ContainerChange(at: real, removed: seq<string>, added: seq<string>)
    | OtherDrift(at: real, named: seq<string>)

  datatype Failure = Failure(service: string, at: real)

  /** One pair of failures close enough together. */
  datatype Hit = Hit(pair: Pair, delta: real)

  /** The co-failures so far, in the order their pairs were first seen. */
  datatype Tally = Tally(pairs: seq<Pair>, deltas: map<Pair, seq<real>>)

  datatype Kind = CoFailure | CascadeFailure
  datatype Pattern = Pattern(serviceA: string, serviceB: string, count: nat, average: real, kind: Kind)

  // ---- which services failed ------------------------------------------------------

  /** `base` is the base name of a service's pod, or None for a name that never counts (empty, or
      the pod of a CronJob run); the regular expressions for it are not part of this model. */
  function BaseNames(base: string -> Option<string>, names: seq<string>): seq<string> {
    if names == [] then []
    else (match base(names[0]) case Some(b) => [b] case None => []) + BaseNames(base, names[1..])
  }

  function Minus(names: seq<string>, gone: seq<string>): seq<string> {
    if names == [] then []
    else (if names[0] in gone then [] else [names[0]]) + Minus(names[1..], gone)
  }

  /** `drift_failed_services`, sorted. */
  function FailedServices(base: string -> Option<string>, d: Drift): seq<string> {
    match d
    case ContainerChange(_, removed, added) => Minus(SortUnique(BaseNames(base, removed)), BaseNames(base, added))
    case OtherDrift(_, named) => SortUnique(BaseNames(base, named))
  }

  lemma {:induction false} BaseNamesExactly(base: string -> Option<string>, names: seq<string>, b: string)
    ensures b in BaseNames(base, names) <==> exists i :: 0 <= i < |names| && base(names[i]) == Some(b)
  {
    if names != [] {
      BaseNamesExactly(base, names[1..], b);
      if i :| 0 <= i < |names| && base(names[i]) == Some(b) {
        if i > 0 {
          assert names[1..][i - 1] == names[i];
        }
      }
      if b in BaseNames(base, names) {
        if base(names[0]) == Some(b) {
        } else {
          var i :| 0 <= i < |names[1..]| && base(names[1..][i]) == Some(b);
          assert base(names[i + 1]) == Some(b);
        }
      }
    }
  }

  lemma {:induction false} MinusExactly(names: seq<string>, gone: seq<string>, n: string)
    ensures n in Minus(names, gone) <==> n in names && n !in gone
  {
    if names != [] {
      MinusExactly(names[1..], gone, n);
    }
  }

  /** A service fails in a container change exactly if one of its pods went and none came: a pod
      replaced in the same diff is no failure. */
  lemma ReplacedIsNotFailed(base: string -> Option<string>, at: real, removed: seq<string>, added: seq<string>, service: string)
    ensures service in FailedServices(base, ContainerChange(at, removed, added)) <==>
              && (exists i :: 0 <= i < |removed| && base(removed[i]) == Some(service))
              && !(exists i :: 0 <= i < |added| && base(added[i]) == Some(service))
  {
    MinusExactly(SortUnique(BaseNames(base, removed)), BaseNames(base, added), service);
    SortUniqueMembers(BaseNames(base, removed));
    assert service in SortUnique(BaseNames(base, removed)) <==> service in SetOf(BaseNames(base, removed));
    BaseNamesExactly(base, removed, service);
    BaseNamesExactly(base, added, service);
  }

  function FailuresOf(services: seq<string>, at: real): seq<Failure> {
    if services == [] then [] else [Failure(services[0], at)] + FailuresOf(services[1..], at)
  }

  function Failures(base: string -> Option<string>, drifts: seq<Drift>): seq<Failure> {
    if drifts == [] then []
    else FailuresOf(FailedServices(base, drifts[0]), drifts[0].at) + Failures(base, drifts[1..])
  }

  /** A service fails in any other drift exactly if one of the names it carries is of it. */
  lemma NamedHasFailed(base: string -> Option<string>, at: real, named: seq<string>, service: string)
    ensures service in FailedServices(base, OtherDrift(at, named)) <==>
              exists i :: 0 <= i < |named| && base(named[i]) == Some(service)
  {
    SortUniqueMembers(BaseNames(base, named));
    assert service in SortUnique(BaseNames(base, named)) <==> service in SetOf(BaseNames(base, named));
    BaseNamesExactly(base, named, service);
  }

  lemma {:induction false} MinusKeepsOrder(names: seq<string>, gone: seq<string>)
    requires Ordered(names)
    ensures Ordered(Minus(names, gone))
  {
    if names != [] {
      var rest := names[1..];
      assert forall i :: 0 <= i < |rest| ==> rest[i] == names[i + 1];
      MinusKeepsOrder(rest, gone);
      forall i | 0 <= i < |Minus(rest, gone)|
        ensures Leq(names[0], Minus(rest, gone)[i]) && names[0] != Minus(rest, gone)[i]
      {
        MinusExactly(rest, gone, Minus(rest, gone)[i]);
        var k :| 0 <= k < |rest| && rest[k] == Minus(rest, gone)[i];
        assert names[k + 1] == Minus(rest, gone)[i];
      }
    }
  }

  /** Each drift's failed services come once each, in order of name. */
  lemma FailedOnceEach(base: string -> Option<string>, d: Drift)
    ensures Ordered(FailedServices(base, d))
  {
    match d
    case ContainerChange(_, removed, added) =>
      SortUniqueOrdered(BaseNames(base, removed));
      MinusKeepsOrder(SortUnique(BaseNames(base, removed)), BaseNames(base, added));
    case OtherDrift(_, named) => SortUniqueOrdered(BaseNames(base, named));
  }

  lemma {:induction false} FailuresOfAt(services: seq<string>, at: real)
    ensures |FailuresOf(services, at)| == |services|
    ensures forall i :: 0 <= i < |services| ==> FailuresOf(services, at)[i] == Failure(services[i], at)
  {
    if services != [] {
      FailuresOfAt(services[1..], at);
    }
  }

  /** One drift's failures: each of its failed services, at its time. */
  lemma FailuresOfOne(base: string -> Option<string>, d: Drift)
    ensures |Failures(base, [d])| == |FailedServices(base, d)|
    ensures forall i :: 0 <= i < |FailedServices(base, d)| ==>
              Failures(base, [d])[i] == Failure(FailedServices(base, d)[i], d.at)
  {
    FailuresOfAt(FailedServices(base, d), d.at);
    assert Failures(base, [d][1..]) == [];
    assert Failures(base, [d]) == FailuresOf(FailedServices(base, d), d.at);
  }

  /** The failures of a list of drifts are those of the first and then those of the rest. */
  lemma FailuresCons(base: string -> Option<string>, d: Drift, rest: seq<Drift>)
    ensures Failures(base, []) == []
    ensures Failures(base, [d] + rest) == Failures(base, [d]) + Failures(base, rest)
  {
    assert ([d] + rest)[1..] == rest && [d][1..] == [];
  }

  // ---- brute force --------------------------------------------------------------------

  function PairOf(a: string, b: string): Pair {
    if Leq(a, b) then (a, b) else (b, a)
  }

  lemma PairOfIsUnordered(a: string, b: string)
    ensures PairOf(a, b) == PairOf(b, a)
  {
    LeqTotal(a, b);
  }

  /** A pair is the two services, whichever comes first. */
  lemma PairOfExactly(a: string, b: string, c: string, d: string)
    ensures PairOf(a, b) == PairOf(c, d) <==> (a == c && b == d) || (a == d && b == c)
    ensures PairOf(a, b) == (a, b) || PairOf(a, b) == (b, a)
    ensures Leq(PairOf(a, b).0, PairOf(a, b).1)
  {
    LeqTotal(a, b);
    LeqTotal(c, d);
  }

  /** Failures `i` and `j` make a pair: different services, `j` later by at least a second and by
      no more than the window. */
  predicate Pairs(events: seq<Failure>, window: real, i: nat, j: nat) {
    && i < j < |events|
    && events[i].service != events[j].service
    && 1.0 <= events[j].at - events[i].at <= window
  }

  function HitAt(events: seq<Failure>, window: real, i: nat, j: nat): seq<Hit> {
    if Pairs(events, window, i, j)
    then [Hit(PairOf(events[i].service, events[j].service), events[j].at - events[i].at)] else []
  }

  /** The hits of failure `i` with those from `j` on. */
  function RowHits(events: seq<Failure>, window: real, i: nat, j: nat): seq<Hit>
    decreases if j <= |events| then |events| - j else 0
  {
    if j >= |events| then [] else HitAt(events, window, i, j) + RowHits(events, window, i, j + 1)
  }

  /** Every pair of failures, without any early end. */
  function HitsFrom(events: seq<Failure>, window: real, i: nat): seq<Hit>
    decreases if i <= |events| then |events| - i else 0
  {
    if i >= |events| then [] else RowHits(events, window, i, i + 1) + HitsFrom(events, window, i + 1)
  }

  function Record(t: Tally, hit: Hit): Tally {
    if hit.pair in t.deltas then Tally(t.pairs, t.deltas[hit.pair := t.deltas[hit.pair] + [hit.delta]])
    else Tally(t.pairs + [hit.pair], t.deltas[hit.pair := [hit.delta]])
  }

  function TallyOf(hits: seq<Hit>): Tally {
    if hits == [] then Tally([], map[]) else Record(TallyOf(hits[..|hits| - 1]), hits[|hits| - 1])
  }

  // ---- from counts to patterns -----------------------------------------------------------

  function Sum(xs: seq<real>): real {
    if xs == [] then 0.0 else Sum(xs[..|xs| - 1]) + xs[|xs| - 1]
  }

  function Average(xs: seq<real>): real
    requires xs != []
  {
    Sum(xs) / |xs| as real
  }

  function PatternOf(pair: Pair, deltas: seq<real>): Pattern
    requires deltas != []
  {
    Pattern(pair.0, pair.1, |deltas|, Average(deltas), if Average(deltas) > 30.0 then CascadeFailure else CoFailure)
  }

  /** The pairs seen at least twice. */
  function Selected(pairs: seq<Pair>, deltas: map<Pair, seq<real>>): seq<Pattern> {
    if pairs == [] then []
    else
      var last := pairs[|pairs| - 1];
      Selected(pairs[..|pairs| - 1], deltas)
      + (if last in deltas && |deltas[last]| >= 2 then [PatternOf(last, deltas[last])] else [])
  }

  /** Insert behind everything with as high a count: a stable, descending sort. */
  function InsertByCount(sorted: seq<Pattern>, p: Pattern): seq<Pattern> {
    if sorted == [] then [p]
    else if sorted[|sorted| - 1].count >= p.count then sorted + [p]
    else InsertByCount(sorted[..|sorted| - 1], p) + [sorted[|sorted| - 1]]
  }

  function SortByCount(patterns: seq<Pattern>): seq<Pattern> {
    if patterns == [] then []
    else InsertByCount(SortByCount(patterns[..|patterns| - 1]), patterns[|patterns| - 1])
  }

  function PatternsOf(events: seq<Failure>, window: real): seq<Pattern> {
    var t := TallyOf(HitsFrom(events, window, 0));
    SortByCount(Selected(t.pairs, t.deltas))
  }

  ghost predicate InTimeOrder(events: seq<Failure>) {
    forall i, j :: 0 <= i < j < |events| ==> events[i].at <= events[j].at
  }

  ghost predicate DriftsInOrder(drifts: seq<Drift>) {
    forall i, j :: 0 <= i < j < |drifts| ==> drifts[i].at <= drifts[j].at
  }

  lemma {:induction false} FailuresAreAt(services: seq<string>, at: real)
    ensures forall f :: f in FailuresOf(services, at) ==> f.at == at
  {
    if services != [] {
      FailuresAreAt(services[1..], at);
    }
  }

  lemma {:induction false} FailuresNotBefore(base: string -> Option<string>, drifts: seq<Drift>, at: real)
    requires forall i :: 0 <= i < |drifts| ==> at <= drifts[i].at
    ensures forall f :: f in Failures(base, drifts) ==> at <= f.at
  {
    if drifts != [] {
      FailuresAreAt(FailedServices(base, drifts[0]), drifts[0].at);
      FailuresNotBefore(base, drifts[1..], at);
    }
  }

  lemma AppendInOrder(a: seq<Failure>, b: seq<Failure>, at: real)
    requires InTimeOrder(b) && (forall f :: f in a ==> f.at == at) && (forall f :: f in b ==> at <= f.at)
    ensures InTimeOrder(a + b)
  {
  }

  lemma {:induction false} FailuresInOrder(base: string -> Option<string>, drifts: seq<Drift>)
    requires DriftsInOrder(drifts)
    ensures InTimeOrder(Failures(base, drifts))
  {
    if drifts != [] {
      FailuresInOrder(base, drifts[1..]);
      FailuresAreAt(FailedServices(base, drifts[0]), drifts[0].at);
      FailuresNotBefore(base, drifts[1..], drifts[0].at);
      AppendInOrder(FailuresOf(FailedServices(base, drifts[0]), drifts[0].at), Failures(base, drifts[1..]), drifts[0].at);
    }
  }

  /** Behind a failure that is already too late, a row has no more hits. */
  lemma {:induction false} RowIsOver(events: seq<Failure>, window: real, i: nat, j: nat)
    requires i < j <= |events|
    requires forall k :: j <= k < |events| ==> events[k].at - events[i].at > window
    ensures RowHits(events, window, i, j) == []
    decreases |events| - j
  {
    if j < |events| {
      assert events[j].at - events[i].at > window;
      RowIsOver(events, window, i, j + 1);
    }
  }

  lemma TallyAppend(hits: seq<Hit>, hit: Hit)
    ensures TallyOf(hits + [hit]) == Record(TallyOf(hits), hit)
  {
    assert (hits + [hit])[..|hits|] == hits;
  }

  lemma {:induction false} TallyHasDeltas(hits: seq<Hit>)
    ensures forall p :: p in TallyOf(hits).deltas ==> TallyOf(hits).deltas[p] != []
    ensures forall p :: p in TallyOf(hits).deltas <==> p in TallyOf(hits).pairs
    decreases |hits|
  {
    if hits != [] {
      TallyHasDeltas(hits[..|hits| - 1]);
    }
  }

  lemma RowStep(events: seq<Failure>, window: real, i: nat, j: nat, counted: seq<Hit>, all: seq<Hit>)
    requires i < j < |events| && counted + RowHits(events, window, i, j) == all
    ensures (counted + HitAt(events, window, i, j)) + RowHits(events, window, i, j + 1) == all
  {
    Reassociate(counted, HitAt(events, window, i, j), RowHits(events, window, i, j + 1));
  }

  lemma TallyStep(events: seq<Failure>, window: real, i: nat, j: nat, counted: seq<Hit>)
    ensures TallyOf(counted + HitAt(events, window, i, j))
         == if Pairs(events, window, i, j)
            then Record(TallyOf(counted), Hit(PairOf(events[i].service, events[j].service), events[j].at - events[i].at))
            else TallyOf(counted)
  {
    if Pairs(events, window, i, j) {
      TallyAppend(counted, Hit(PairOf(events[i].service, events[j].service), events[j].at - events[i].at));
    } else {
      assert counted + [] == counted;
    }
  }

  lemma RowEnds(events: seq<Failure>, window: real, i: nat, j: nat, counted: seq<Hit>, all: seq<Hit>)
    requires i < j <= |events| && InTimeOrder(events) && counted + RowHits(events, window, i, j) == all
    requires j < |events| ==> events[j].at - events[i].at > window
    ensures counted == all
  {
    if j < |events| {
      assert forall k :: j <= k < |events| ==> events[k].at >= events[j].at;
      RowIsOver(events, window, i, j);
    }
    assert counted + [] == counted;
  }

  /** One row of the counting loop, with its early end. */
  method CountRow(events: seq<Failure>, window: real, i: nat, tally: Tally, ghost done: seq<Hit>) returns (t: Tally)
    requires i < |events| && InTimeOrder(events) && tally == TallyOf(done)
    ensures t == TallyOf(done + RowHits(events, window, i, i + 1))
  {
    t := tally;
    ghost var counted := done;
    ghost var all := done + RowHits(events, window, i, i + 1);
    var j := i + 1;
    while j < |events|
      invariant i < j <= |events|
      invariant t == TallyOf(counted)
      invariant counted + RowHits(events, window, i, j) == all
    {
      var delta := events[j].at - events[i].at;
      if delta > window {
        RowEnds(events, window, i, j, counted, all);
        return;
      }
      RowStep(events, window, i, j, counted, all);
      TallyStep(events, window, i, j, counted);
      if delta >= 1.0 && events[i].service != events[j].service {
        t := Record(t, Hit(PairOf(events[i].service, events[j].service), delta));
      }
      counted := counted + HitAt(events, window, i, j);
      j := j + 1;
    }
    RowEnds(events, window, i, j, counted, all);
  }

  /** The last loop: the pairs seen at least twice. */
  method SelectPatterns(tally: Tally) returns (patterns: seq<Pattern>)
    requires forall p :: p in tally.pairs ==> p in tally.deltas
    ensures patterns == Selected(tally.pairs, tally.deltas)
  {
    patterns := [];
    var i := 0;
    while i < |tally.pairs|
      invariant 0 <= i <= |tally.pairs|
      invariant patterns == Selected(tally.pairs[..i], tally.deltas)
    {
      var pair := tally.pairs[i];
      assert tally.pairs[..i + 1][..i] == tally.pairs[..i];
      if |tally.deltas[pair]| >= 2 {
        patterns := patterns + [PatternOf(pair, tally.deltas[pair])];
      }
      i := i + 1;
    }
    assert tally.pairs[..|tally.pairs|] == tally.pairs;
  }

  /** `service_failure_patterns`: on events in time order, the loops with their early end find
      exactly what brute force over all pairs finds, in the same order. */
  method ServiceFailurePatterns(base: string -> Option<string>, drifts: seq<Drift>, window: real) returns (patterns: seq<Pattern>)
    requires DriftsInOrder(drifts)
    ensures patterns == PatternsOf(Failures(base, drifts), window)
  {
    FailuresInOrder(base, drifts);
    var events := Failures(base, drifts);
    var tally := Tally([], map[]);
    ghost var done: seq<Hit> := [];
    var i := 0;
    while i < |events|
      invariant 0 <= i <= |events|
      invariant tally == TallyOf(done)
      invariant done + HitsFrom(events, window, i) == HitsFrom(events, window, 0)
    {
      tally := CountRow(events, window, i, tally, done);
      Reassociate(done, RowHits(events, window, i, i + 1), HitsFrom(events, window, i + 1));
      done := done + RowHits(events, window, i, i + 1);
      i := i + 1;
    }
    assert done + [] == done;
    TallyHasDeltas(done);
    var selected := SelectPatterns(tally);
    patterns := SortByCount(selected);
  }

  lemma Reassociate(a: seq<Hit>, b: seq<Hit>, c: seq<Hit>)
    ensures a + (b + c) == (a + b) + c
  {
  }

  // ---- what brute force counts ---------------------------------------------------------------

  /** The pairs of failures, from the `j`th of row `i` on, that count for a pair of services. */
  ghost function Counted(events: seq<Failure>, window: real, pair: Pair, i: nat, j: nat): set<(nat, nat)> {
    set a: nat, b: nat | a < |events| && b < |events| && (a > i || (a == i && b >= j)) && CountsFor(events, window, pair, a, b)
      :: (a, b)
  }

  predicate CountsFor(events: seq<Failure>, window: real, pair: Pair, a: nat, b: nat) {
    Pairs(events, window, a, b) && PairOf(events[a].service, events[b].service) == pair
  }

  function DeltasOf(hits: seq<Hit>, pair: Pair): seq<real> {
    if hits == [] then []
    else DeltasOf(hits[..|hits| - 1], pair) + (if hits[|hits| - 1].pair == pair then [hits[|hits| - 1].delta] else [])
  }

  lemma {:induction false} TallyIsDeltas(hits: seq<Hit>, pair: Pair)
    ensures pair in TallyOf(hits).deltas <==> DeltasOf(hits, pair) != []
    ensures pair in TallyOf(hits).deltas ==> TallyOf(hits).deltas[pair] == DeltasOf(hits, pair)
    decreases |hits|
  {
    if hits != [] {
      TallyIsDeltas(hits[..|hits| - 1], pair);
    }
  }

  lemma {:induction false} DeltasAppend(a: seq<Hit>, b: seq<Hit>, pair: Pair)
    ensures DeltasOf(a + b, pair) == DeltasOf(a, pair) + DeltasOf(b, pair)
    decreases |b|
  {
    if b == [] {
      assert a + b == a;
    } else {
      assert (a + b)[..|a + b| - 1] == a + b[..|b| - 1];
      DeltasAppend(a, b[..|b| - 1], pair);
    }
  }

  lemma DeltasAtPair(events: seq<Failure>, window: real, pair: Pair, i: nat, j: nat)
    ensures |DeltasOf(HitAt(events, window, i, j), pair)| == if CountsFor(events, window, pair, i, j) then 1 else 0
  {
  }

  lemma CountedStep(events: seq<Failure>, window: real, pair: Pair, i: nat, j: nat)
    requires i < |events| && j < |events|
    ensures |Counted(events, window, pair, i, j)|
         == |Counted(events, window, pair, i, j + 1)| + (if CountsFor(events, window, pair, i, j) then 1 else 0)
  {
    var here, rest := Counted(events, window, pair, i, j), Counted(events, window, pair, i, j + 1);
    var step: set<(nat, nat)> := if CountsFor(events, window, pair, i, j) then {(i, j)} else {};
    forall a: nat, b: nat
      ensures (a, b) in here <==> (a, b) in rest || (a, b) in step
    {
    }
    assert here == rest + step && rest !! step;
  }

  lemma {:induction false} RowCounts(events: seq<Failure>, window: real, pair: Pair, i: nat, j: nat)
    requires i < |events| && j <= |events|
    ensures |DeltasOf(RowHits(events, window, i, j), pair)| + |Counted(events, window, pair, i, |events|)|
         == |Counted(events, window, pair, i, j)|
    decreases |events| - j
  {
    if j < |events| {
      RowCounts(events, window, pair, i, j + 1);
      CountedStep(events, window, pair, i, j);
      DeltasAtPair(events, window, pair, i, j);
      DeltasAppend(HitAt(events, window, i, j), RowHits(events, window, i, j + 1), pair);
    }
  }

  lemma NextRow(events: seq<Failure>, window: real, pair: Pair, i: nat)
    requires i < |events|
    ensures Counted(events, window, pair, i, |events|) == Counted(events, window, pair, i + 1, i + 2)
  {
    var here, next := Counted(events, window, pair, i, |events|), Counted(events, window, pair, i + 1, i + 2);
    forall a: nat, b: nat
      ensures (a, b) in here <==> (a, b) in next
    {
    }
    assert here == next;
  }

  lemma {:induction false} RowsCount(events: seq<Failure>, window: real, pair: Pair, i: nat)
    requires i <= |events|
    ensures |DeltasOf(HitsFrom(events, window, i), pair)| == |Counted(events, window, pair, i, i + 1)|
    decreases |events| - i
  {
    if i == |events| {
      assert Counted(events, window, pair, i, i + 1) == {};
    } else {
      RowsCount(events, window, pair, i + 1);
      RowCounts(events, window, pair, i, i + 1);
      NextRow(events, window, pair, i);
      DeltasAppend(RowHits(events, window, i, i + 1), HitsFrom(events, window, i + 1), pair);
    }
  }

  /** The count of a pair of services is the number of pairs of failures: one of each service,
      at least a second and at most the window apart. */
  ghost function PairCount(events: seq<Failure>, window: real, pair: Pair): nat {
    |set a: nat, b: nat | a < |events| && b < |events| && CountsFor(events, window, pair, a, b) :: (a, b)|
  }

  lemma DeltasCountPairs(events: seq<Failure>, window: real, pair: Pair)
    ensures |DeltasOf(HitsFrom(events, window, 0), pair)| == PairCount(events, window, pair)
  {
    RowsCount(events, window, pair, 0);
    assert Counted(events, window, pair, 0, 1)
        == set a: nat, b: nat | a < |events| && b < |events| && CountsFor(events, window, pair, a, b) :: (a, b);
  }

  /** Which pairs of failures count for a pair of services: an earlier failure of the one and a later
      failure of the other, at least one second and at most the window apart. */
  lemma CountsForExactly(events: seq<Failure>, window: real, pair: Pair, a: nat, b: nat)
    requires a < |events| && b < |events| && Leq(pair.0, pair.1)
    ensures CountsFor(events, window, pair, a, b) <==>
              && a < b && pair.0 != pair.1
              && ((events[a].service == pair.0 && events[b].service == pair.1)
                  || (events[a].service == pair.1 && events[b].service == pair.0))
              && events[b].at - events[a].at >= 1.0 && events[b].at - events[a].at <= window
  {
    PairOfExactly(events[a].service, events[b].service, pair.0, pair.1);
    LeqTotal(pair.0, pair.1);
  }

  /** The distances of a pair are those of the pairs of failures that count for it, each as often
      as it occurs: in a row, and then row by row. */
  function RowDeltas(events: seq<Failure>, window: real, pair: Pair, i: nat, j: nat): seq<real>
    decreases if j <= |events| then |events| - j else 0
  {
    if j >= |events| then []
    else (if i < |events| && CountsFor(events, window, pair, i, j) then [events[j].at - events[i].at] else [])
         + RowDeltas(events, window, pair, i, j + 1)
  }

  function AllDeltas(events: seq<Failure>, window: real, pair: Pair, i: nat): seq<real>
    decreases if i <= |events| then |events| - i else 0
  {
    if i >= |events| then [] else RowDeltas(events, window, pair, i, i + 1) + AllDeltas(events, window, pair, i + 1)
  }

  lemma DeltasOfHit(events: seq<Failure>, window: real, pair: Pair, i: nat, j: nat)
    requires i < |events| && j < |events|
    ensures DeltasOf(HitAt(events, window, i, j), pair)
         == if CountsFor(events, window, pair, i, j) then [events[j].at - events[i].at] else []
  {
    var hits := HitAt(events, window, i, j);
    if hits != [] {
      assert hits[..0] == [] && |hits| == 1;
      assert DeltasOf(hits[..0], pair) == [];
    }
  }

  lemma {:induction false} RowDeltasAre(events: seq<Failure>, window: real, pair: Pair, i: nat, j: nat)
    requires i < |events|
    ensures DeltasOf(RowHits(events, window, i, j), pair) == RowDeltas(events, window, pair, i, j)
    decreases if j <= |events| then |events| - j else 0
  {
    if j < |events| {
      RowDeltasAre(events, window, pair, i, j + 1);
      DeltasOfHit(events, window, pair, i, j);
      DeltasAppend(HitAt(events, window, i, j), RowHits(events, window, i, j + 1), pair);
    }
  }

  lemma {:induction false} AllDeltasAre(events: seq<Failure>, window: real, pair: Pair, i: nat)
    ensures DeltasOf(HitsFrom(events, window, i), pair) == AllDeltas(events, window, pair, i)
    decreases if i <= |events| then |events| - i else 0
  {
    if i < |events| {
      AllDeltasAre(events, window, pair, i + 1);
      RowDeltasAre(events, window, pair, i, i + 1);
      DeltasAppend(RowHits(events, window, i, i + 1), HitsFrom(events, window, i + 1), pair);
    }
  }

  /** A sum is the sum of its parts, and of one number that number. */
  lemma {:induction false} SumExactly(a: seq<real>, b: seq<real>, x: real)
    ensures Sum([x]) == x
    ensures Sum(a + b) == Sum(a) + Sum(b)
    decreases |b|
  {
    assert [x][..0] == [] && Sum([]) == 0.0;
    if b == [] {
      assert a + b == a;
    } else {
      assert (a + b)[..|a + b| - 1] == a + b[..|b| - 1];
      SumExactly(a, b[..|b| - 1], x);
    }
  }

  lemma AverageTimesCount(xs: seq<real>)
    requires xs != []
    ensures Average(xs) * |xs| as real == Sum(xs)
  {
  }

  /** A pattern's count is the number of the distances that count for its pair, and its average
      their mean. */
  lemma PatternsSay(events: seq<Failure>, window: real, p: Pattern, pair: Pair)
    requires p in PatternsOf(events, window) && pair == (p.serviceA, p.serviceB)
    ensures p.count == |AllDeltas(events, window, pair, 0)| >= 2
    ensures p.average == Average(AllDeltas(events, window, pair, 0))
  {
    PatternsExactly(events, window, pair);
    AllDeltasAre(events, window, pair, 0);
    assert PairOfPattern(p) == pair;
  }

  // ---- averages ---------------------------------------------------------------------------------

  ghost predicate Within(xs: seq<real>, lo: real, hi: real) {
    forall i :: 0 <= i < |xs| ==> lo <= xs[i] <= hi
  }

  ghost predicate HitsWithin(hits: seq<Hit>, window: real) {
    forall i :: 0 <= i < |hits| ==> 1.0 <= hits[i].delta <= window
  }

  lemma {:induction false} RowWithin(events: seq<Failure>, window: real, i: nat, j: nat)
    ensures HitsWithin(RowHits(events, window, i, j), window)
    decreases if j <= |events| then |events| - j else 0
  {
    if j < |events| {
      RowWithin(events, window, i, j + 1);
    }
  }

  lemma {:induction false} AllWithin(events: seq<Failure>, window: real, i: nat)
    ensures HitsWithin(HitsFrom(events, window, i), window)
    decreases if i <= |events| then |events| - i else 0
  {
    if i < |events| {
      RowWithin(events, window, i, i + 1);
      AllWithin(events, window, i + 1);
    }
  }

  lemma {:induction false} DeltasWithin(hits: seq<Hit>, pair: Pair, window: real)
    requires HitsWithin(hits, window)
    ensures Within(DeltasOf(hits, pair), 1.0, window)
    decreases |hits|
  {
    if hits != [] {
      DeltasWithin(hits[..|hits| - 1], pair, window);
    }
  }

  lemma OneMore(n: nat, x: real)
    ensures (n + 1) as real * x == n as real * x + x
  {
    assert (n + 1) as real == n as real + 1.0;
  }

  lemma {:induction false} SumWithin(xs: seq<real>, lo: real, hi: real)
    requires Within(xs, lo, hi)
    ensures |xs| as real * lo <= Sum(xs) <= |xs| as real * hi
    decreases |xs|
  {
    if xs != [] {
      SumWithin(xs[..|xs| - 1], lo, hi);
      OneMore(|xs| - 1, lo);
      OneMore(|xs| - 1, hi);
    }
  }

  lemma DivideWithin(sum: real, n: real, lo: real, hi: real)
    requires n > 0.0 && n * lo <= sum <= n * hi
    ensures lo <= sum / n <= hi
  {
    assert sum == (sum / n) * n;
  }

  lemma AverageWithin(xs: seq<real>, lo: real, hi: real)
    requires xs != [] && Within(xs, lo, hi)
    ensures lo <= Average(xs) <= hi
  {
    SumWithin(xs, lo, hi);
    DivideWithin(Sum(xs), |xs| as real, lo, hi);
  }

  // ---- the patterns -------------------------------------------------------------------------------

  ghost predicate ByCount(patterns: seq<Pattern>) {
    forall i, j :: 0 <= i < j < |patterns| ==> patterns[i].count >= patterns[j].count
  }

  lemma {:induction false} InsertKeeps(sorted: seq<Pattern>, p: Pattern)
    ensures multiset(InsertByCount(sorted, p)) == multiset(sorted) + multiset{p}
    decreases |sorted|
  {
    if sorted != [] && sorted[|sorted| - 1].count < p.count {
      var before, last := sorted[..|sorted| - 1], sorted[|sorted| - 1];
      InsertKeeps(before, p);
      assert sorted == before + [last];
    }
  }

  lemma AppendLowest(patterns: seq<Pattern>, last: Pattern)
    requires ByCount(patterns) && forall p :: p in patterns ==> p.count >= last.count
    ensures ByCount(patterns + [last])
  {
  }

  lemma {:induction false} InsertSorts(sorted: seq<Pattern>, p: Pattern)
    requires ByCount(sorted)
    ensures ByCount(InsertByCount(sorted, p))
    decreases |sorted|
  {
    if sorted != [] && sorted[|sorted| - 1].count < p.count {
      var before, last := sorted[..|sorted| - 1], sorted[|sorted| - 1];
      InsertSorts(before, p);
      InsertKeeps(before, p);
      var inserted := InsertByCount(before, p);
      forall q | q in inserted
        ensures q.count >= last.count
      {
        assert q in multiset(inserted);
        assert q in before || q == p;
      }
      AppendLowest(inserted, last);
    }
  }

  lemma {:induction false} SortSorts(patterns: seq<Pattern>)
    ensures ByCount(SortByCount(patterns)) && multiset(SortByCount(patterns)) == multiset(patterns)
    decreases |patterns|
  {
    if patterns != [] {
      var before, last := patterns[..|patterns| - 1], patterns[|patterns| - 1];
      SortSorts(before);
      SortStep(before, last, SortByCount(before));
      assert patterns == before + [last];
    }
  }

  lemma SortStep(before: seq<Pattern>, last: Pattern, sorted: seq<Pattern>)
    requires ByCount(sorted) && multiset(sorted) == multiset(before)
    ensures ByCount(InsertByCount(sorted, last)) && multiset(InsertByCount(sorted, last)) == multiset(before + [last])
  {
    InsertSorts(sorted, last);
    InsertKeeps(sorted, last);
  }

  ghost predicate DistinctPairs(pairs: seq<Pair>) {
    forall i, j :: 0 <= i < j < |pairs| ==> pairs[i] != pairs[j]
  }

  lemma {:induction false} TallyPairsDistinct(hits: seq<Hit>)
    ensures DistinctPairs(TallyOf(hits).pairs)
    decreases |hits|
  {
    if hits != [] {
      TallyPairsDistinct(hits[..|hits| - 1]);
      TallyHasDeltas(hits[..|hits| - 1]);
    }
  }

  function PairOfPattern(p: Pattern): Pair {
    (p.serviceA, p.serviceB)
  }

  lemma {:induction false} SelectedExactly(pairs: seq<Pair>, deltas: map<Pair, seq<real>>, pair: Pair)
    requires DistinctPairs(pairs) && forall p :: p in pairs ==> p in deltas
    ensures forall p :: p in Selected(pairs, deltas) ==> PairOfPattern(p) in pairs
    ensures pair in pairs && |deltas[pair]| >= 2 ==> multiset(Selected(pairs, deltas))[PatternOf(pair, deltas[pair])] == 1
    ensures forall p :: p in Selected(pairs, deltas) && PairOfPattern(p) == pair ==>
              pair in deltas && |deltas[pair]| >= 2 && p == PatternOf(pair, deltas[pair])
    decreases |pairs|
  {
    if pairs != [] {
      var before, last := pairs[..|pairs| - 1], pairs[|pairs| - 1];
      assert pairs == before + [last];
      SelectedExactly(before, deltas, pair);
      if pair == last && |deltas[pair]| >= 2 {
        assert pair !in before;
        var p := PatternOf(pair, deltas[pair]);
        assert p !in Selected(before, deltas);
        assert p !in multiset(Selected(before, deltas));
      }
    }
  }

  /** The patterns found, against brute force: sorted by count; a pair of services has a pattern,
      and only one, exactly if at least two pairs of failures count for it; its count is their
      number, and its average, the mean of their distances, lies between one second and the
      window and tells a cascade from a co-failure. */
  lemma PatternsExactly(events: seq<Failure>, window: real, pair: Pair)
    ensures var patterns := PatternsOf(events, window);
            var deltas := DeltasOf(HitsFrom(events, window, 0), pair);
            && ByCount(patterns)
            && |deltas| == PairCount(events, window, pair)
            && Within(deltas, 1.0, window)
            && (PairCount(events, window, pair) >= 2 ==> multiset(patterns)[PatternOf(pair, deltas)] == 1)
            && (forall p :: p in patterns && PairOfPattern(p) == pair ==>
                  && PairCount(events, window, pair) >= 2
                  && p.count == PairCount(events, window, pair)
                  && p.average == Average(deltas) && 1.0 <= p.average <= window
                  && (p.kind.CascadeFailure? <==> p.average > 30.0))
  {
    var hits := HitsFrom(events, window, 0);
    var t := TallyOf(hits);
    var deltas := DeltasOf(hits, pair);
    TallyPairsDistinct(hits);
    TallyHasDeltas(hits);
    TallyIsDeltas(hits, pair);
    DeltasCountPairs(events, window, pair);
    AllWithin(events, window, 0);
    DeltasWithin(hits, pair, window);
    if deltas != [] {
      AverageWithin(deltas, 1.0, window);
    }
    SelectedExactly(t.pairs, t.deltas, pair);
    var selected := Selected(t.pairs, t.deltas);
    SortSorts(selected);
    forall p
      ensures p in SortByCount(selected) <==> p in selected
    {
      assert p in multiset(SortByCount(selected)) <==> p in multiset(selected);
    }
  }
}
