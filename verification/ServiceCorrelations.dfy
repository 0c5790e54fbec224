/** The table of service correlations and its sync with the failure window
    (agent/knowledge_base.py, `sync_service_correlations`). */
module ServiceCorrelations {
  import opened Wrappers
  import opened FailurePatterns
  import opened Text

  /** A row of the table; the two services may be in either order. */
  datatype Row = Row(serviceA: string, serviceB: string, kind: Kind, count: nat, average: real, lastSeen: int)

  /** The patterns asked for, one for each pair, in the order the pairs were first asked for. */
  datatype Wanted = Wanted(pairs: seq<Pair>, patterns: map<Pair, Pattern>)

  datatype Counts = Counts(updated: nat, added: nat, deleted: nat)

  function PairOfRow(row: Row): Pair {
    PairOf(row.serviceA, row.serviceB)
  }

  /** A pattern with both services named asks for its pair; a later one replaces an earlier. */
  function Ask(w: Wanted, p: Pattern): Wanted {
    var pair := PairOf(p.serviceA, p.serviceB);
    if p.serviceA == "" || p.serviceB == "" then w
    else Wanted(if pair in w.patterns then w.pairs else w.pairs + [pair], w.patterns[pair := p])
  }

  function WantedOf(patterns: seq<Pattern>): Wanted {
    if patterns == [] then Wanted([], map[]) else Ask(WantedOf(patterns[..|patterns| - 1]), patterns[|patterns| - 1])
  }

  function Updated(row: Row, p: Pattern, now: int): Row {
    row.(kind := p.kind, count := p.count, average := p.average, lastSeen := now)
  }

  function NewRow(pair: Pair, p: Pattern, now: int): Row {
    Row(pair.0, pair.1, p.kind, p.count, p.average, now)
  }

  /** The rows that stay, each with its pattern's values: the first of each wanted pair. */
  function Kept(rows: seq<Row>, wanted: map<Pair, Pattern>, now: int): seq<Row> {
    if rows == [] then []
    else if PairOfRow(rows[0]) in wanted then
      [Updated(rows[0], wanted[PairOfRow(rows[0])], now)] + Kept(rows[1..], wanted - {PairOfRow(rows[0])}, now)
    else Kept(rows[1..], wanted, now)
  }

  /** What is still wanted after the rows have been gone through. */
  function Left(rows: seq<Row>, wanted: map<Pair, Pattern>): map<Pair, Pattern> {
    if rows == [] then wanted else Left(rows[1..], wanted - {PairOfRow(rows[0])})
  }

  function Added(pairs: seq<Pair>, wanted: map<Pair, Pattern>, now: int): seq<Row> {
    if pairs == [] then []
    else (if pairs[0] in wanted then [NewRow(pairs[0], wanted[pairs[0]], now)] else []) + Added(pairs[1..], wanted, now)
  }

  function Synced(rows: seq<Row>, patterns: seq<Pattern>, now: int): seq<Row> {
    var w := WantedOf(patterns);
    Kept(rows, w.patterns, now) + Added(w.pairs, Left(rows, w.patterns), now)
  }

  // ---- the program ---------------------------------------------------------------------

  method CollectWanted(patterns: seq<Pattern>) returns (w: Wanted)
    ensures w == WantedOf(patterns)
  {
    w := Wanted([], map[]);
    var i := 0;
    while i < |patterns|
      invariant 0 <= i <= |patterns| && w == WantedOf(patterns[..i])
    {
      assert patterns[..i + 1][..i] == patterns[..i];
      w := Ask(w, patterns[i]);
      i := i + 1;
    }
    assert patterns[..|patterns|] == patterns;
  }

  lemma KeptStep(rows: seq<Row>, wanted: map<Pair, Pattern>, now: int, i: nat)
    requires i < |rows|
    ensures var pair := PairOfRow(rows[i]);
            && Left(rows[i..], wanted) == Left(rows[i + 1..], wanted - {pair})
            && Kept(rows[i..], wanted, now)
               == (if pair in wanted then [Updated(rows[i], wanted[pair], now)] else [])
                  + Kept(rows[i + 1..], wanted - {pair}, now)
  {
    var pair := PairOfRow(rows[i]);
    assert rows[i..][0] == rows[i] && rows[i..][1..] == rows[i + 1..];
    if pair !in wanted {
      assert wanted - {pair} == wanted;
    }
  }

  /** The loop over the rows: each is updated from the pattern it takes out of the map, or
      deleted if there is none. */
  method KeepRows(rows: seq<Row>, all: map<Pair, Pattern>, now: int) returns (kept: seq<Row>, wanted: map<Pair, Pattern>, deleted: nat)
    ensures kept == Kept(rows, all, now) && wanted == Left(rows, all) && |kept| + deleted == |rows|
  {
    kept, wanted, deleted := [], all, 0;
    var i := 0;
    assert rows[0..] == rows;
    while i < |rows|
      invariant 0 <= i <= |rows|
      invariant kept + Kept(rows[i..], wanted, now) == Kept(rows, all, now)
      invariant Left(rows[i..], wanted) == Left(rows, all)
      invariant |kept| + deleted == i
    {
      var pair := PairOfRow(rows[i]);
      KeptStep(rows, wanted, now, i);
      if pair in wanted {
        kept := kept + [Updated(rows[i], wanted[pair], now)];
      } else {
        deleted := deleted + 1;
      }
      wanted := wanted - {pair};
      i := i + 1;
    }
    assert rows[|rows|..] == [];
  }

  method AddRows(pairs: seq<Pair>, wanted: map<Pair, Pattern>, now: int) returns (added: seq<Row>)
    ensures added == Added(pairs, wanted, now)
  {
    added := [];
    var i := 0;
    assert pairs[0..] == pairs;
    while i < |pairs|
      invariant 0 <= i <= |pairs|
      invariant added + Added(pairs[i..], wanted, now) == Added(pairs, wanted, now)
    {
      assert pairs[i..][0] == pairs[i] && pairs[i..][1..] == pairs[i + 1..];
      if pairs[i] in wanted {
        added := added + [NewRow(pairs[i], wanted[pairs[i]], now)];
      }
      i := i + 1;
    }
  }

  class Table {
    var rows: seq<Row>

    constructor (rows: seq<Row>)
      ensures this.rows == rows
    {
      this.rows := rows;
    }

    method SyncServiceCorrelations(patterns: seq<Pattern>, now: int) returns (counts: Counts)
      modifies this
      ensures rows == Synced(old(rows), patterns, now)
      ensures counts.updated == |Kept(old(rows), WantedOf(patterns).patterns, now)|
      ensures counts.updated + counts.deleted == |old(rows)|
      ensures counts.updated + counts.added == |WantedOf(patterns).patterns|
    {
      CountsAddUp(rows, patterns, now);
      var w := CollectWanted(patterns);
      var kept, wanted, deleted := KeepRows(rows, w.patterns, now);
      var added := AddRows(w.pairs, wanted, now);
      rows := kept + added;
      counts := Counts(|kept|, |added|, deleted);
    }
  }

  // ---- what the table holds afterwards ---------------------------------------------------

  ghost predicate Holds(row: Row, p: Pattern) {
    row.count == p.count && row.kind == p.kind && row.average == p.average
  }

  ghost predicate DistinctRows(rows: seq<Row>) {
    forall i, j :: 0 <= i < j < |rows| ==> PairOfRow(rows[i]) != PairOfRow(rows[j])
  }

  ghost predicate AllHold(rows: seq<Row>, wanted: map<Pair, Pattern>) {
    forall i :: 0 <= i < |rows| ==> PairOfRow(rows[i]) in wanted && Holds(rows[i], wanted[PairOfRow(rows[i])])
  }

  function RowPairs(rows: seq<Row>): set<Pair> {
    set row | row in rows :: PairOfRow(row)
  }

  /** One row for each wanted pair, with the window's values, and no other row. */
  ghost predicate Matches(rows: seq<Row>, wanted: map<Pair, Pattern>) {
    DistinctRows(rows) && AllHold(rows, wanted) && RowPairs(rows) == wanted.Keys
  }

  lemma {:induction false} WantedWellFormed(patterns: seq<Pattern>)
    ensures var w := WantedOf(patterns);
            && DistinctPairs(w.pairs)
            && (forall p :: p in w.pairs <==> p in w.patterns)
            && (forall p :: p in w.patterns ==> p == PairOf(p.0, p.1))
    decreases |patterns|
  {
    if patterns != [] {
      WantedWellFormed(patterns[..|patterns| - 1]);
      var p := patterns[|patterns| - 1];
      PairOfPair(p.serviceA, p.serviceB);
    }
  }

  predicate AsksFor(p: Pattern, pair: Pair) {
    p.serviceA != "" && p.serviceB != "" && PairOf(p.serviceA, p.serviceB) == pair
  }

  /** Pattern `i` is the last that asks for the pair. */
  ghost predicate LastAsks(patterns: seq<Pattern>, pair: Pair, i: nat) {
    i < |patterns| && AsksFor(patterns[i], pair) && forall j :: i < j < |patterns| ==> !AsksFor(patterns[j], pair)
  }

  lemma LastAsksSnoc(before: seq<Pattern>, last: Pattern, pair: Pair, i: nat)
    ensures LastAsks(before + [last], pair, i) <==>
              if AsksFor(last, pair) then i == |before| else LastAsks(before, pair, i)
  {
    var patterns := before + [last];
    assert patterns[|before|] == last;
    assert forall j :: 0 <= j < |before| ==> patterns[j] == before[j];
  }

  /** What is wanted: the pairs of the patterns that name two services, each with the last pattern
      that asks for it. */
  lemma {:induction false} WantedExactly(patterns: seq<Pattern>, pair: Pair, wanted: map<Pair, Pattern>)
    requires wanted == WantedOf(patterns).patterns
    ensures pair in wanted <==> exists i: nat :: LastAsks(patterns, pair, i)
    ensures forall i: nat :: LastAsks(patterns, pair, i) ==> pair in wanted && wanted[pair] == patterns[i]
    decreases |patterns|
  {
    if patterns != [] {
      var before, last := patterns[..|patterns| - 1], patterns[|patterns| - 1];
      var sooner := WantedOf(before);
      WantedExactly(before, pair, sooner.patterns);
      AskMeans(sooner, last, pair);
      WantedStep(before, last, pair, sooner.patterns, wanted);
      assert patterns == before + [last];
    }
  }

  lemma WantedStep(before: seq<Pattern>, last: Pattern, pair: Pair, sooner: map<Pair, Pattern>, wanted: map<Pair, Pattern>)
    requires pair in sooner <==> exists i: nat :: LastAsks(before, pair, i)
    requires forall i: nat :: LastAsks(before, pair, i) ==> pair in sooner && sooner[pair] == before[i]
    requires pair in wanted <==> pair in sooner || AsksFor(last, pair)
    requires pair in wanted ==> wanted[pair] == if AsksFor(last, pair) then last else sooner[pair]
    ensures pair in wanted <==> exists i: nat :: LastAsks(before + [last], pair, i)
    ensures forall i: nat :: LastAsks(before + [last], pair, i) ==> pair in wanted && wanted[pair] == (before + [last])[i]
  {
    forall i: nat
      ensures LastAsks(before + [last], pair, i) <==>
                if AsksFor(last, pair) then i == |before| else LastAsks(before, pair, i)
    {
      LastAsksSnoc(before, last, pair, i);
    }
    if pair in wanted {
      if AsksFor(last, pair) {
        assert LastAsks(before + [last], pair, |before|);
      } else {
        var i: nat :| LastAsks(before, pair, i);
        assert LastAsks(before + [last], pair, i);
      }
    }
  }

  lemma AskMeans(w: Wanted, p: Pattern, pair: Pair)
    ensures pair in Ask(w, p).patterns <==> pair in w.patterns || AsksFor(p, pair)
    ensures pair in Ask(w, p).patterns ==> Ask(w, p).patterns[pair] == if AsksFor(p, pair) then p else w.patterns[pair]
  {
  }

  lemma PairOfPair(a: string, b: string)
    ensures PairOf(PairOf(a, b).0, PairOf(a, b).1) == PairOf(a, b)
  {
    PairOfIsUnordered(a, b);
  }

  lemma ConsRow(row: Row, rows: seq<Row>, wanted: map<Pair, Pattern>)
    requires DistinctRows(rows) && AllHold(rows, wanted) && PairOfRow(row) !in RowPairs(rows)
    requires PairOfRow(row) in wanted && Holds(row, wanted[PairOfRow(row)])
    ensures DistinctRows([row] + rows) && AllHold([row] + rows, wanted)
    ensures RowPairs([row] + rows) == {PairOfRow(row)} + RowPairs(rows)
  {
    forall i | 0 <= i < |rows|
      ensures PairOfRow(rows[i]) in RowPairs(rows)
    {
      assert rows[i] in rows;
    }
  }

  lemma {:induction false} KeptMatches(rows: seq<Row>, wanted: map<Pair, Pattern>, now: int)
    ensures DistinctRows(Kept(rows, wanted, now)) && AllHold(Kept(rows, wanted, now), wanted)
    ensures RowPairs(Kept(rows, wanted, now)) !! Left(rows, wanted).Keys
    ensures RowPairs(Kept(rows, wanted, now)) + Left(rows, wanted).Keys == wanted.Keys
    ensures forall p :: p in Left(rows, wanted) ==> p in wanted && Left(rows, wanted)[p] == wanted[p]
    decreases |rows|
  {
    if rows != [] {
      var pair := PairOfRow(rows[0]);
      KeptMatches(rows[1..], wanted - {pair}, now);
      if pair in wanted {
        ConsRow(Updated(rows[0], wanted[pair], now), Kept(rows[1..], wanted - {pair}, now), wanted);
      } else {
        assert wanted - {pair} == wanted;
      }
    }
  }

  lemma {:induction false} AddedMatches(pairs: seq<Pair>, wanted: map<Pair, Pattern>, now: int)
    requires DistinctPairs(pairs) && forall p :: p in pairs ==> p == PairOf(p.0, p.1)
    ensures DistinctRows(Added(pairs, wanted, now)) && AllHold(Added(pairs, wanted, now), wanted)
    ensures RowPairs(Added(pairs, wanted, now)) == set p | p in pairs && p in wanted
    decreases |pairs|
  {
    if pairs != [] {
      AddedMatches(pairs[1..], wanted, now);
      assert pairs[0] !in pairs[1..];
      var rest := set p | p in pairs[1..] && p in wanted;
      if pairs[0] in wanted {
        ConsRow(NewRow(pairs[0], wanted[pairs[0]], now), Added(pairs[1..], wanted, now), wanted);
        assert (set p | p in pairs && p in wanted) == {pairs[0]} + rest;
      } else {
        assert (set p | p in pairs && p in wanted) == rest;
      }
    }
  }

  lemma AppendRows(a: seq<Row>, b: seq<Row>, wanted: map<Pair, Pattern>)
    requires DistinctRows(a) && DistinctRows(b) && AllHold(a, wanted) && AllHold(b, wanted) && RowPairs(a) !! RowPairs(b)
    ensures DistinctRows(a + b) && AllHold(a + b, wanted) && RowPairs(a + b) == RowPairs(a) + RowPairs(b)
  {
    forall i, j | 0 <= i < |a| && 0 <= j < |b|
      ensures PairOfRow(a[i]) != PairOfRow(b[j])
    {
      assert a[i] in a && b[j] in b;
      assert PairOfRow(a[i]) in RowPairs(a) && PairOfRow(b[j]) in RowPairs(b);
    }
  }

  /** After a sync the table has exactly one row for each pair that was asked for, in whatever
      order its services were written, with the window's values, and no other row. */
  lemma SyncedMatches(rows: seq<Row>, patterns: seq<Pattern>, now: int)
    ensures Matches(Synced(rows, patterns, now), WantedOf(patterns).patterns)
  {
    var w := WantedOf(patterns);
    var left := Left(rows, w.patterns);
    WantedWellFormed(patterns);
    KeptMatches(rows, w.patterns, now);
    AddedMatches(w.pairs, left, now);
    assert (set p | p in w.pairs && p in left) == left.Keys;
    AppendRows(Kept(rows, w.patterns, now), Added(w.pairs, left, now), w.patterns);
  }

  predicate SameRow(row: Row, old_: Row) {
    row.serviceA == old_.serviceA && row.serviceB == old_.serviceB
  }

  lemma {:induction false} KeptAreOldRows(rows: seq<Row>, wanted: map<Pair, Pattern>, now: int)
    ensures forall row :: row in Kept(rows, wanted, now) ==>
              row.lastSeen == now && exists old_ :: old_ in rows && SameRow(row, old_)
    decreases |rows|
  {
    if rows != [] {
      KeptAreOldRows(rows[1..], wanted - {PairOfRow(rows[0])}, now);
      KeptAreOldRows(rows[1..], wanted, now);
      assert SameRow(rows[0], rows[0]) && rows[0] in rows;
      assert forall old_ :: old_ in rows[1..] ==> old_ in rows;
      if PairOfRow(rows[0]) in wanted {
        var first := Updated(rows[0], wanted[PairOfRow(rows[0])], now);
        assert SameRow(first, rows[0]) && first.lastSeen == now;
      }
    }
  }

  lemma {:induction false} AddedAreSeen(pairs: seq<Pair>, wanted: map<Pair, Pattern>, now: int)
    ensures forall row :: row in Added(pairs, wanted, now) ==>
              row.lastSeen == now && (row.serviceA, row.serviceB) in pairs
  {
    if pairs != [] {
      AddedAreSeen(pairs[1..], wanted, now);
    }
  }

  /** Every row of a synced table has been seen now; one that was there keeps its two services as
      they were written, and a new one has them in order. */
  lemma SyncedRows(rows: seq<Row>, patterns: seq<Pattern>, now: int, row: Row)
    requires row in Synced(rows, patterns, now)
    ensures row.lastSeen == now
    ensures (exists old_ :: old_ in rows && SameRow(row, old_)) || Leq(row.serviceA, row.serviceB)
  {
    var w := WantedOf(patterns);
    KeptAreOldRows(rows, w.patterns, now);
    AddedAreSeen(w.pairs, Left(rows, w.patterns), now);
    WantedWellFormed(patterns);
    if row !in Kept(rows, w.patterns, now) {
      assert row in Added(w.pairs, Left(rows, w.patterns), now);
      PairOfExactly(row.serviceA, row.serviceB, row.serviceA, row.serviceB);
    }
  }

  lemma {:induction false} MatchingSize(rows: seq<Row>)
    requires DistinctRows(rows)
    ensures |RowPairs(rows)| == |rows|
    decreases |rows|
  {
    if rows != [] {
      var before, last := rows[..|rows| - 1], rows[|rows| - 1];
      MatchingSize(before);
      assert rows == before + [last];
      assert PairOfRow(last) !in RowPairs(before);
      assert RowPairs(rows) == RowPairs(before) + {PairOfRow(last)};
    }
  }

  /** Conservation: every old row was updated or deleted, and every pair asked for was updated or
      added. */
  lemma CountsAddUp(rows: seq<Row>, patterns: seq<Pattern>, now: int)
    ensures var wanted := WantedOf(patterns).patterns;
            |Synced(rows, patterns, now)| == |wanted| && |Kept(rows, wanted, now)| <= |rows|
  {
    SyncedMatches(rows, patterns, now);
    MatchingSize(Synced(rows, patterns, now));
    KeptShorter(rows, WantedOf(patterns).patterns, now);
  }

  lemma {:induction false} KeptShorter(rows: seq<Row>, wanted: map<Pair, Pattern>, now: int)
    ensures |Kept(rows, wanted, now)| <= |rows|
    decreases |rows|
  {
    if rows != [] {
      KeptShorter(rows[1..], wanted - {PairOfRow(rows[0])}, now);
      KeptShorter(rows[1..], wanted, now);
    }
  }

  function Seen(rows: seq<Row>, now: int): seq<Row> {
    if rows == [] then [] else [rows[0].(lastSeen := now)] + Seen(rows[1..], now)
  }

  lemma {:induction false} KeptOfMatching(rows: seq<Row>, wanted: map<Pair, Pattern>, now: int)
    requires DistinctRows(rows) && AllHold(rows, wanted)
    ensures Kept(rows, wanted, now) == Seen(rows, now)
    ensures Left(rows, wanted).Keys == wanted.Keys - RowPairs(rows)
    decreases |rows|
  {
    if rows != [] {
      var pair, rest := PairOfRow(rows[0]), rows[1..];
      forall i | 0 <= i < |rest|
        ensures rest[i] == rows[i + 1] && PairOfRow(rest[i]) != pair
      {
      }
      KeptOfMatching(rest, wanted - {pair}, now);
      assert RowPairs(rows) == {pair} + RowPairs(rest);
    }
  }

  lemma {:induction false} NothingAdded(pairs: seq<Pair>, wanted: map<Pair, Pattern>, now: int)
    requires wanted.Keys == {}
    ensures Added(pairs, wanted, now) == []
  {
    if pairs != [] {
      NothingAdded(pairs[1..], wanted, now);
    }
  }

  /** A second sync with the same patterns adds nothing, deletes nothing and changes no pair,
      count, kind or average: only the time the rows were last seen. */
  lemma SyncAgain(rows: seq<Row>, patterns: seq<Pattern>, now: int, later: int)
    ensures var once := Synced(rows, patterns, now);
            && Synced(once, patterns, later) == Seen(once, later)
            && |Kept(once, WantedOf(patterns).patterns, later)| == |once|
  {
    var w := WantedOf(patterns);
    var once := Synced(rows, patterns, now);
    SyncedMatches(rows, patterns, now);
    KeptOfMatching(once, w.patterns, later);
    NothingAdded(w.pairs, Left(once, w.patterns), later);
    SeenLength(once, later);
  }

  lemma {:induction false} SeenLength(rows: seq<Row>, now: int)
    ensures |Seen(rows, now)| == |rows|
  {
    if rows != [] {
      SeenLength(rows[1..], now);
    }
  }
}
