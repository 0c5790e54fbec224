/** The dedupe decision for one enqueue (agent/dedupe_reference.py, `decide`, the model the
    cfop-dedupe service is held to) and the exact-key decision taken while the service cannot
    answer (agent/dedupe_client.py, `fallback`). */
module Dedupe {
  import opened Wrappers
  import opened Remediation
  import opened Text

  datatype Row = Row(id: nat, status: Status, payload: Payload)

  datatype Candidate = Candidate(dedupeKey: string, recommendation: string, targets: seq<Target>,
                                 foldTargets: seq<Target>, host: string, title: string, trigger: string)

  /** A usable target: kind, repo and normalized id. */
  datatype Identity = Identity(kind: string, repo: string, id: string)

  /** How text is read. The regular expressions for identifiers, the normalization of target
      ids and the matching of host names are not part of this model: `identifiers` is
      `extract_identifiers`, `identity` is one turn of `target_identity`, and `collapse` is
      `_collapse`, the key and node of the incident a host field belongs to. */
  datatype Reader = Reader(
    identifiers: string -> set<string>,
    identity: Target -> Option<Identity>,
    collapse: (string, set<string>) -> Option<(string, string)>)

  datatype Tier = Node | TargetTier | Identifier

  datatype Decision =
    | New(dedupeKey: string, host: string)
    | Fold(rowId: nat, tier: Tier, shared: set<string>, absorbed: string, alias: string)
    | Suppress(rowId: nat, dedupeKey: string)

  const FOLD_WINDOW: nat := 100
  const ABSORBED_LIMIT: nat := 200
  const ALIAS_LIMIT: nat := 25

  // ---- targets -----------------------------------------------------------------

  /** `targets or fold_targets` */
  function Named(targets: seq<Target>, foldTargets: seq<Target>): seq<Target> {
    if targets != [] then targets else foldTargets
  }

  function TargetIdentity(reader: Reader, targets: seq<Target>): set<Identity> {
    set t | t in targets && reader.identity(t).Some? :: reader.identity(t).value
  }

  predicate EndsWith(x: string, suffix: string) {
    |suffix| <= |x| && x[|x| - |suffix|..] == suffix
  }

  predicate SameTarget(a: Identity, b: Identity) {
    && a.kind == b.kind && a.repo == b.repo
    && (a.id == b.id || EndsWith(a.id, "/" + b.id) || EndsWith(b.id, "/" + a.id))
  }

  predicate Covered(xs: set<Identity>, ys: set<Identity>) {
    forall x :: x in xs ==> exists y :: y in ys && SameTarget(x, y)
  }

  predicate TargetsContained(new_: set<Identity>, old_: set<Identity>) {
    new_ != {} && old_ != {} && (Covered(new_, old_) || Covered(old_, new_))
  }

  // ---- the scans -----------------------------------------------------------------

  function OpenRows(rows: seq<Row>): seq<Row> {
    if rows == [] then []
    else if Terminal(rows[0].status) then OpenRows(rows[1..])
    else [rows[0]] + OpenRows(rows[1..])
  }

  function WindowOf(open: seq<Row>): seq<Row> {
    if |open| <= FOLD_WINDOW then open else open[..FOLD_WINDOW]
  }

  /** The first row whose own key is `key`. */
  function FirstWithKey(rows: seq<Row>, key: string): Option<Row> {
    if rows == [] then None
    else if rows[0].payload.dedupeKey == key then Some(rows[0])
    else FirstWithKey(rows[1..], key)
  }

  predicate Carries(row: Row, key: string) {
    key != "" && (row.payload.dedupeKey == key || key in row.payload.aliases)
  }

  function FirstCarrying(rows: seq<Row>, key: string): Option<Row> {
    if rows == [] then None
    else if Carries(rows[0], key) then Some(rows[0])
    else FirstCarrying(rows[1..], key)
  }

  /** `_lookup`: an own key among every open row, then an alias among the newest. */
  function Lookup(open: seq<Row>, key: string): Option<Row> {
    var own := FirstWithKey(open, key);
    if own.Some? then own else FirstCarrying(WindowOf(open), key)
  }

  function CandidateTargets(reader: Reader, c: Candidate): set<Identity> {
    TargetIdentity(reader, Named(c.targets, c.foldTargets))
  }

  function RowTargets(reader: Reader, row: Row): set<Identity> {
    TargetIdentity(reader, Named(row.payload.targets, row.payload.foldTargets))
  }

  predicate ExactRepeat(c: Candidate, row: Row) {
    row.payload.dedupeKey != "" && row.payload.dedupeKey == c.dedupeKey
  }

  predicate FoldsByTarget(reader: Reader, c: Candidate, row: Row) {
    !ExactRepeat(c, row) && TargetsContained(CandidateTargets(reader, c), RowTargets(reader, row))
  }

  predicate FoldsByIdentifier(reader: Reader, c: Candidate, row: Row) {
    var new_ := reader.identifiers(c.recommendation);
    var old_ := reader.identifiers(row.payload.recommendation);
    && !ExactRepeat(c, row) && !FoldsByTarget(reader, c, row)
    && new_ != {} && old_ != {} && (new_ <= old_ || old_ <= new_)
  }

  function Absorbed(c: Candidate): string {
    var text := if c.trigger != "" then c.trigger else c.recommendation;
    if |text| <= ABSORBED_LIMIT then text else text[..ABSORBED_LIMIT]
  }

  function FoldOnto(reader: Reader, c: Candidate, row: Row, tier: Tier): Decision {
    Fold(row.id, tier,
         if tier.TargetTier? then (set t | t in CandidateTargets(reader, c) :: t.id)
         else reader.identifiers(c.recommendation) * reader.identifiers(row.payload.recommendation),
         Absorbed(c),
         if c.dedupeKey != row.payload.dedupeKey then c.dedupeKey else "")
  }

  /** `_fold_repeat`, the loop over the window */
  function FoldRepeat(reader: Reader, c: Candidate, window: seq<Row>): Option<Decision> {
    if window == [] then None
    else if FoldsByTarget(reader, c, window[0]) then Some(FoldOnto(reader, c, window[0], TargetTier))
    else if FoldsByIdentifier(reader, c, window[0]) then Some(FoldOnto(reader, c, window[0], Identifier))
    else FoldRepeat(reader, c, window[1..])
  }

  /** The node-incident key and node of a candidate, if a NotReady node owns it. */
  function NodeOf(reader: Reader, c: Candidate, notReady: set<string>): Option<(string, string)> {
    if notReady == {} then None
    else
      var found := reader.collapse(if c.host != "" then c.host else c.title, notReady);
      if found.Some? && found.value.0 == "" then None else found
  }

  function DecideByKey(open: seq<Row>, key: string, host: string): Decision {
    var owner := FirstWithKey(open, key);
    if key != "" && owner.Some? then Suppress(owner.value.id, key) else New(key, host)
  }

  /** `decide`: node collapse, then the target and identifier folds, then the exact key. */
  function Decide(reader: Reader, c: Candidate, rows: seq<Row>, notReady: set<string>): Decision {
    var open := OpenRows(rows);
    match NodeOf(reader, c, notReady)
    case Some((nodeKey, node)) =>
      if nodeKey != c.dedupeKey && Lookup(open, nodeKey).Some? then
        Fold(Lookup(open, nodeKey).value.id, Node, {node}, Absorbed(c), "")
      else DecideByKey(open, nodeKey, node)
    case None =>
      var folded := FoldRepeat(reader, c, WindowOf(open));
      if folded.Some? then folded.value else DecideByKey(open, c.dedupeKey, "")
  }

  /** `fallback`, over the snapshot if there is one. */
  function Fallback(c: Candidate, snapshot: Option<seq<Row>>): Decision {
    if snapshot.None? then New(c.dedupeKey, "") else DecideByKey(OpenRows(snapshot.value), c.dedupeKey, "")
  }

  // ---- applying a decision -----------------------------------------------------------

  /** The payload of the row a "new" decision inserts. */
  function InsertedPayload(c: Candidate, key: string): Payload {
    Payload(key, [], c.recommendation, c.targets, if c.targets == [] then c.foldTargets else [], "")
  }

  /** `record_remediation_alias` */
  function WithAlias(p: Payload, key: string): Payload {
    var k := Strip(key);
    if k == "" || k == p.dedupeKey || k in p.aliases || |p.aliases| >= ALIAS_LIMIT then p
    else p.(aliases := p.aliases + [k])
  }

  function AliasOn(rows: seq<Row>, id: nat, alias: string): seq<Row> {
    seq(|rows|, i requires 0 <= i < |rows| =>
      if rows[i].id == id then rows[i].(payload := WithAlias(rows[i].payload, alias)) else rows[i])
  }

  /** The rows, newest first, after acting on a decision. */
  function Applied(rows: seq<Row>, c: Candidate, d: Decision, newId: nat, status: Status): seq<Row> {
    match d
    case New(key, _) => [Row(newId, status, InsertedPayload(c, key))] + rows
    case Fold(id, _, _, _, alias) => AliasOn(rows, id, alias)
    case Suppress(_, _) => rows
  }

  function RowNamed(d: Decision, newId: nat): nat {
    match d
    case New(_, _) => newId
    case Fold(id, _, _, _, _) => id
    case Suppress(id, _) => id
  }

  // ---- what the scans mean -------------------------------------------------------------

  predicate Folds(reader: Reader, c: Candidate, row: Row) {
    FoldsByTarget(reader, c, row) || FoldsByIdentifier(reader, c, row)
  }

  lemma {:induction false} FoldRepeatFinds(reader: Reader, c: Candidate, window: seq<Row>)
    ensures FoldRepeat(reader, c, window).None? <==> forall i :: 0 <= i < |window| ==> !Folds(reader, c, window[i])
    ensures FoldRepeat(reader, c, window).Some? ==>
              FoldRepeat(reader, c, window).value.Fold?
              && exists i :: 0 <= i < |window| && Folds(reader, c, window[i])
                             && FoldRepeat(reader, c, window).value.rowId == window[i].id
                             && forall j :: 0 <= j < i ==> !Folds(reader, c, window[j])
  {
    if window != [] && !Folds(reader, c, window[0]) {
      FoldRepeatFinds(reader, c, window[1..]);
      if FoldRepeat(reader, c, window).None? {
        forall i | 0 <= i < |window|
          ensures !Folds(reader, c, window[i])
        {
          assert i > 0 ==> window[i] == window[1..][i - 1];
        }
      } else {
        var i :| 0 <= i < |window[1..]| && Folds(reader, c, window[1..][i])
                 && FoldRepeat(reader, c, window[1..]).value.rowId == window[1..][i].id
                 && forall j :: 0 <= j < i ==> !Folds(reader, c, window[1..][j]);
        assert window[i + 1] == window[1..][i];
        forall j | 0 <= j < i + 1
          ensures !Folds(reader, c, window[j])
        {
          assert j > 0 ==> window[j] == window[1..][j - 1];
        }
      }
    } else if window != [] {
      assert Folds(reader, c, window[0]);
    }
  }

  lemma {:induction false} FirstWithKeyFinds(rows: seq<Row>, key: string)
    ensures FirstWithKey(rows, key).None? <==> forall i :: 0 <= i < |rows| ==> rows[i].payload.dedupeKey != key
    ensures FirstWithKey(rows, key).Some? ==>
              FirstWithKey(rows, key).value in rows && FirstWithKey(rows, key).value.payload.dedupeKey == key
  {
    if rows != [] && rows[0].payload.dedupeKey != key {
      FirstWithKeyFinds(rows[1..], key);
      forall i | 1 <= i < |rows|
        ensures rows[i] == rows[1..][i - 1]
      {
      }
    }
  }

  /** For a candidate no NotReady node owns, "new" means exactly that no row in the window folds
      it and no open row at all has its key; otherwise the decision names the first row in the
      window that folds it, or else a row that owns its key. */
  lemma NewExactly(reader: Reader, c: Candidate, rows: seq<Row>, notReady: set<string>)
    requires NodeOf(reader, c, notReady).None?
    ensures var open := OpenRows(rows);
            var window := WindowOf(open);
            Decide(reader, c, rows, notReady).New?
            <==> && (forall i :: 0 <= i < |window| ==> !Folds(reader, c, window[i]))
                 && (c.dedupeKey == "" || forall i :: 0 <= i < |open| ==> open[i].payload.dedupeKey != c.dedupeKey)
    ensures var window := WindowOf(OpenRows(rows));
            var d := Decide(reader, c, rows, notReady);
            d.Fold? ==> exists i :: 0 <= i < |window| && Folds(reader, c, window[i]) && d.rowId == window[i].id
                                    && forall j :: 0 <= j < i ==> !Folds(reader, c, window[j])
    ensures var d := Decide(reader, c, rows, notReady);
            d.Suppress? ==> exists r :: r in OpenRows(rows) && d.rowId == r.id && r.payload.dedupeKey == c.dedupeKey
  {
    FoldRepeatFinds(reader, c, WindowOf(OpenRows(rows)));
    FirstWithKeyFinds(OpenRows(rows), c.dedupeKey);
  }

  /** While the service is down a repeat is still a repeat: when no node owns the candidate and
      the exact key suppresses it, the service would not have called it new. */
  lemma FallbackSuppressesOnlyRepeats(reader: Reader, c: Candidate, rows: seq<Row>, notReady: set<string>)
    requires NodeOf(reader, c, notReady).None?
    requires Fallback(c, Some(rows)).Suppress?
    ensures !Decide(reader, c, rows, notReady).New?
    ensures Decide(reader, c, rows, notReady).Suppress? ==> Decide(reader, c, rows, notReady) == Fallback(c, Some(rows))
  {
    FoldRepeatFinds(reader, c, WindowOf(OpenRows(rows)));
  }

  // ---- every part of a decision ------------------------------------------------------

  /** The open rows of a list are those of its parts, in order; of one row, that row unless it is
      resolved or rejected. */
  lemma {:induction false} OpenRowsExactly(a: seq<Row>, b: seq<Row>, row: Row)
    ensures OpenRows([row]) == if row.status in {Resolved, Rejected} then [] else [row]
    ensures OpenRows(a + b) == OpenRows(a) + OpenRows(b)
  {
    assert OpenRows([]) == [];
    if a == [] {
      assert a + b == b;
    } else {
      assert (a + b)[1..] == a[1..] + b;
      OpenRowsExactly(a[1..], b, row);
    }
  }

  /** The same target: kind and repo equal, and the ids equal or one the other behind a path. */
  lemma SameTargetExactly(a: Identity, b: Identity)
    ensures SameTarget(a, b) <==>
              && a.kind == b.kind && a.repo == b.repo
              && (a.id == b.id || (exists path: string :: a.id == path + "/" + b.id)
                  || (exists path: string :: b.id == path + "/" + a.id))
  {
    SuffixExactly(a.id, b.id);
    SuffixExactly(b.id, a.id);
  }

  lemma SuffixExactly(x: string, y: string)
    ensures EndsWith(x, "/" + y) <==> exists path: string :: x == path + "/" + y
  {
    if EndsWith(x, "/" + y) {
      assert x == x[..|x| - |y| - 1] + "/" + y;
    }
    if path: string :| x == path + "/" + y {
      assert x == path + ("/" + y);
    }
  }

  /** Targets match if neither side is empty and every one of the one side has its like on the other. */
  lemma ContainedExactly(new_: set<Identity>, old_: set<Identity>)
    ensures TargetsContained(new_, old_) <==>
              && new_ != {} && old_ != {}
              && ((forall x :: x in new_ ==> exists y :: y in old_ && SameTarget(x, y))
                  || (forall x :: x in old_ ==> exists y :: y in new_ && SameTarget(x, y)))
  {
  }

  /** A row folds a candidate if it is not the row of the same key, and either their targets match,
      or every identifier of the one is the other's. */
  lemma FoldsExactly(reader: Reader, c: Candidate, row: Row)
    ensures Folds(reader, c, row) <==>
              && !(c.dedupeKey != "" && row.payload.dedupeKey == c.dedupeKey)
              && (|| TargetsContained(CandidateTargets(reader, c), RowTargets(reader, row))
                  || (var new_, old_ := reader.identifiers(c.recommendation), reader.identifiers(row.payload.recommendation);
                      new_ != {} && old_ != {} && (new_ <= old_ || old_ <= new_)))
  {
  }

  /** Usable targets are read from the targets, or from the fold targets when there are none. */
  lemma TargetsExactly(reader: Reader, c: Candidate, row: Row, identity: Identity)
    ensures identity in CandidateTargets(reader, c) <==>
              exists t :: t in (if |c.targets| > 0 then c.targets else c.foldTargets) && reader.identity(t) == Some(identity)
    ensures identity in RowTargets(reader, row) <==>
              exists t :: t in (if |row.payload.targets| > 0 then row.payload.targets else row.payload.foldTargets)
                          && reader.identity(t) == Some(identity)
  {
  }

  /** What a fold says: the row, the target tier if the targets match and else the identifiers, what
      is shared, at most 200 characters of the candidate's trigger or recommendation, and the
      candidate's key to be recorded if the row has another. */
  ghost predicate FoldSays(reader: Reader, c: Candidate, row: Row, d: Decision) {
    && d.Fold? && d.rowId == row.id
    && (d.tier == TargetTier || d.tier == Identifier)
    && (d.tier == TargetTier <==> TargetsContained(CandidateTargets(reader, c), RowTargets(reader, row)))
    && (d.tier == TargetTier ==> forall id :: id in d.shared <==> exists t :: t in CandidateTargets(reader, c) && t.id == id)
    && (d.tier == Identifier ==>
          forall id :: id in d.shared <==> id in reader.identifiers(c.recommendation)
                                           && id in reader.identifiers(row.payload.recommendation))
    && AbsorbedSays(c, d.absorbed)
    && d.alias == (if row.payload.dedupeKey == c.dedupeKey then "" else c.dedupeKey)
  }

  ghost predicate AbsorbedSays(c: Candidate, absorbed: string) {
    var text := if |c.trigger| > 0 then c.trigger else c.recommendation;
    absorbed <= text && |absorbed| == if |text| < 200 then |text| else 200
  }

  lemma {:induction false} FoldRepeatSays(reader: Reader, c: Candidate, window: seq<Row>, i: nat)
    requires i < |window| && Folds(reader, c, window[i])
    requires forall j :: 0 <= j < i ==> !Folds(reader, c, window[j])
    ensures FoldRepeat(reader, c, window).Some? && FoldSays(reader, c, window[i], FoldRepeat(reader, c, window).value)
  {
    if i > 0 {
      assert window[1..][i - 1] == window[i];
      assert forall j :: 0 <= j < i - 1 ==> window[1..][j] == window[j + 1];
      FoldRepeatSays(reader, c, window[1..], i - 1);
    }
  }

  lemma {:induction false} FirstWithKeyIsFirst(rows: seq<Row>, key: string, i: nat)
    requires i < |rows| && rows[i].payload.dedupeKey == key
    requires forall j :: 0 <= j < i ==> rows[j].payload.dedupeKey != key
    ensures FirstWithKey(rows, key) == Some(rows[i])
  {
    if i > 0 {
      assert forall j :: 0 <= j < i ==> rows[1..][j] == rows[j + 1];
      FirstWithKeyIsFirst(rows[1..], key, i - 1);
    }
  }

  /** The decision on a candidate that no NotReady node owns, whole: the newest of the first
      hundred open rows to fold it; else the newest open row of its key; else it is new. */
  lemma DecisionExactly(reader: Reader, c: Candidate, rows: seq<Row>, notReady: set<string>, i: nat)
    requires NodeOf(reader, c, notReady).None?
    ensures var open, d := OpenRows(rows), Decide(reader, c, rows, notReady);
            && (i < |open| && i < 100 && Folds(reader, c, open[i]) && (forall j :: 0 <= j < i ==> !Folds(reader, c, open[j]))
                ==> FoldSays(reader, c, open[i], d))
            && ((forall j :: 0 <= j < |open| && j < 100 ==> !Folds(reader, c, open[j])) ==>
                  && (c.dedupeKey != "" && i < |open| && open[i].payload.dedupeKey == c.dedupeKey
                      && (forall j :: 0 <= j < i ==> open[j].payload.dedupeKey != c.dedupeKey)
                      ==> d == Suppress(open[i].id, c.dedupeKey))
                  && (c.dedupeKey == "" || (forall j :: 0 <= j < |open| ==> open[j].payload.dedupeKey != c.dedupeKey)
                      ==> d == New(c.dedupeKey, "")))
  {
    var open := OpenRows(rows);
    var window := WindowOf(open);
    assert forall j :: 0 <= j < |window| ==> window[j] == open[j];
    if i < |window| && Folds(reader, c, open[i]) && forall j :: 0 <= j < i ==> !Folds(reader, c, open[j]) {
      FoldRepeatSays(reader, c, window, i);
    }
    FoldRepeatFinds(reader, c, window);
    FirstWithKeyFinds(open, c.dedupeKey);
    if i < |open| && open[i].payload.dedupeKey == c.dedupeKey
       && forall j :: 0 <= j < i ==> open[j].payload.dedupeKey != c.dedupeKey {
      FirstWithKeyIsFirst(open, c.dedupeKey, i);
    }
  }

  predicate CarriesAt(rows: seq<Row>, key: string, i: nat) {
    i < |rows| && (rows[i].payload.dedupeKey == key || key in rows[i].payload.aliases)
  }

  lemma CarriesBehind(rows: seq<Row>, key: string)
    requires rows != []
    ensures forall i: nat :: CarriesAt(rows, key, i + 1) <==> CarriesAt(rows[1..], key, i)
  {
    assert forall i: nat :: i < |rows| - 1 ==> rows[1..][i] == rows[i + 1];
  }

  lemma {:induction false} FirstCarryingFinds(rows: seq<Row>, key: string)
    requires key != ""
    ensures FirstCarrying(rows, key).None? <==> forall i: nat :: !CarriesAt(rows, key, i)
    ensures FirstCarrying(rows, key).Some? ==>
              exists i: nat :: CarriesAt(rows, key, i) && FirstCarrying(rows, key) == Some(rows[i])
                               && forall j: nat :: j < i ==> !CarriesAt(rows, key, j)
  {
    if rows != [] {
      if CarriesAt(rows, key, 0) {
        assert FirstCarrying(rows, key) == Some(rows[0]);
      } else {
        FirstCarryingFinds(rows[1..], key);
        FirstCarryingStep(rows, key, rows[1..]);
      }
    }
  }

  lemma FirstCarryingStep(rows: seq<Row>, key: string, rest: seq<Row>)
    requires key != "" && rows != [] && rest == rows[1..] && !CarriesAt(rows, key, 0)
    requires FirstCarrying(rest, key).None? <==> forall i: nat :: !CarriesAt(rest, key, i)
    requires FirstCarrying(rest, key).Some? ==>
               exists i: nat :: CarriesAt(rest, key, i) && FirstCarrying(rest, key) == Some(rest[i])
                                && forall j: nat :: j < i ==> !CarriesAt(rest, key, j)
    ensures FirstCarrying(rows, key) == FirstCarrying(rest, key)
    ensures FirstCarrying(rows, key).None? <==> forall i: nat :: !CarriesAt(rows, key, i)
    ensures FirstCarrying(rows, key).Some? ==>
              exists i: nat :: CarriesAt(rows, key, i) && FirstCarrying(rows, key) == Some(rows[i])
                               && forall j: nat :: j < i ==> !CarriesAt(rows, key, j)
  {
    CarriesBehind(rows, key);
    forall i: nat
      ensures i > 0 ==> (CarriesAt(rows, key, i) <==> CarriesAt(rest, key, i - 1))
    {
      if i > 0 {
        assert CarriesAt(rows, key, (i - 1) + 1) <==> CarriesAt(rest, key, i - 1);
      }
    }
    if FirstCarrying(rest, key).Some? {
      var i: nat :| CarriesAt(rest, key, i) && FirstCarrying(rest, key) == Some(rest[i])
                    && forall j: nat :: j < i ==> !CarriesAt(rest, key, j);
      assert CarriesAt(rows, key, i + 1) && rows[i + 1] == rest[i];
    }
  }

  /** Which open row stands for a key: one with the key of its own, or one of the first hundred
      that has recorded it. */
  predicate Stands(open: seq<Row>, key: string, i: nat) {
    i < |open| && (open[i].payload.dedupeKey == key || (i < 100 && key in open[i].payload.aliases))
  }

  lemma LookupStands(open: seq<Row>, key: string)
    requires key != ""
    ensures Lookup(open, key).None? <==> forall i: nat :: !Stands(open, key, i)
    ensures Lookup(open, key).Some? ==> exists i: nat :: Stands(open, key, i) && Lookup(open, key) == Some(open[i])
  {
    var window := WindowOf(open);
    assert forall i :: 0 <= i < |window| ==> window[i] == open[i];
    FirstWithKeyFinds(open, key);
    FirstCarryingFinds(window, key);
    if FirstWithKey(open, key).Some? {
      var i: nat :| i < |open| && open[i] == FirstWithKey(open, key).value;
      assert Stands(open, key, i);
    } else if FirstCarrying(window, key).Some? {
      var i: nat :| CarriesAt(window, key, i) && FirstCarrying(window, key) == Some(window[i]);
      assert Stands(open, key, i);
    } else {
      forall i: nat
        ensures !Stands(open, key, i)
      {
        assert !CarriesAt(window, key, i);
        if i < |window| {
          assert window[i] == open[i];
        }
      }
    }
  }

  /** The decision on a candidate that a NotReady node owns: folded onto an open row that stands for
      the node's incident, if the candidate's key is another; suppressed by one of that very key;
      and otherwise new, as the node's incident. */
  lemma NodeDecisionExactly(reader: Reader, c: Candidate, rows: seq<Row>, notReady: set<string>, key: string, node: string,
                            open: seq<Row>)
    requires NodeOf(reader, c, notReady) == Some((key, node)) && key != c.dedupeKey && open == OpenRows(rows)
    ensures var d := Decide(reader, c, rows, notReady);
            && (d == New(key, node) <==> forall i: nat :: !Stands(open, key, i))
            && (d != New(key, node) ==>
                  && d.Fold? && d.tier == Node && d.shared == {node} && d.alias == "" && AbsorbedSays(c, d.absorbed)
                  && exists i: nat :: Stands(open, key, i) && d.rowId == open[i].id)
  {
    LookupStands(open, key);
    FirstWithKeyFinds(open, key);
    if Lookup(open, key).None? {
      assert FirstWithKey(open, key).None?;
    }
  }

  ghost predicate HasKeyAt(open: seq<Row>, key: string, i: nat) {
    i < |open| && open[i].payload.dedupeKey == key
  }

  lemma FirstWithKeyExactly(open: seq<Row>, key: string)
    ensures FirstWithKey(open, key).None? <==> forall i: nat :: !HasKeyAt(open, key, i)
    ensures FirstWithKey(open, key).Some? ==>
              exists i: nat :: HasKeyAt(open, key, i) && open[i] == FirstWithKey(open, key).value
  {
    FirstWithKeyFinds(open, key);
    if FirstWithKey(open, key).Some? {
      var i :| 0 <= i < |open| && open[i] == FirstWithKey(open, key).value;
      assert HasKeyAt(open, key, i);
    }
  }

  lemma OwnNodeDecisionExactly(reader: Reader, c: Candidate, rows: seq<Row>, notReady: set<string>, key: string, node: string,
                               open: seq<Row>)
    requires NodeOf(reader, c, notReady) == Some((key, node)) && key == c.dedupeKey && open == OpenRows(rows)
    ensures var d := Decide(reader, c, rows, notReady);
            && (d == New(key, node) <==> forall i: nat :: !HasKeyAt(open, key, i))
            && (d != New(key, node) ==> exists i: nat :: HasKeyAt(open, key, i) && d == Suppress(open[i].id, key))
  {
    FirstWithKeyExactly(open, key);
    assert Decide(reader, c, rows, notReady) == DecideByKey(open, key, node);
  }

  /** Which candidates a node owns: with any node NotReady, those whose host field, or title when
      that is empty, is read as belonging to one. */
  lemma NodeExactly(reader: Reader, c: Candidate, notReady: set<string>, key: string, node: string)
    ensures NodeOf(reader, c, notReady) == Some((key, node)) <==>
              && key != "" && |notReady| > 0
              && reader.collapse(if |c.host| > 0 then c.host else c.title, notReady) == Some((key, node))
  {
  }

  /** While the service is away only an exact key counts. */
  lemma FallbackExactly(c: Candidate, rows: seq<Row>, open: seq<Row>)
    requires open == OpenRows(rows)
    ensures Fallback(c, None) == New(c.dedupeKey, "")
    ensures Fallback(c, Some(rows)) == New(c.dedupeKey, "") <==>
              c.dedupeKey == "" || forall i: nat :: !HasKeyAt(open, c.dedupeKey, i)
    ensures Fallback(c, Some(rows)) != New(c.dedupeKey, "") ==>
              exists i: nat :: HasKeyAt(open, c.dedupeKey, i) && Fallback(c, Some(rows)) == Suppress(open[i].id, c.dedupeKey)
  {
    FirstWithKeyExactly(open, c.dedupeKey);
  }

  /** Recording a key: once, not the row's own, and while there is room for one of 25; nothing else
      about the payload changes. */
  lemma AliasExactly(p: Payload, key: string, other: string)
    ensures var q := WithAlias(p, key);
            && p.aliases <= q.aliases && |q.aliases| <= |p.aliases| + 1
            && (other in q.aliases <==> other in p.aliases
                                        || (other == Strip(key) && other != "" && other != p.dedupeKey && |p.aliases| < 25))
            && q.dedupeKey == p.dedupeKey && q.recommendation == p.recommendation && q.targets == p.targets
            && q.foldTargets == p.foldTargets && q.source == p.source
  {
  }

  /** What acting on a decision leaves: a new row in front, under the decision's key and with what
      the candidate names; or the candidate's key recorded on the row it was folded onto; or the
      rows as they were. */
  lemma AppliedExactly(rows: seq<Row>, c: Candidate, d: Decision, newId: nat, status: Status)
    ensures var after := Applied(rows, c, d, newId, status);
            && (d.New? ==>
                  && |after| == |rows| + 1 && after[1..] == rows && after[0].id == newId && after[0].status == status
                  && var p := after[0].payload;
                     && p.dedupeKey == d.dedupeKey && p.aliases == [] && p.recommendation == c.recommendation
                     && p.targets == c.targets && (c.targets == [] ==> p.foldTargets == c.foldTargets) && p.source == "")
            && (d.Suppress? ==> after == rows)
            && (d.Fold? ==>
                  && |after| == |rows|
                  && forall i :: 0 <= i < |rows| ==>
                       && after[i].id == rows[i].id && after[i].status == rows[i].status
                       && (rows[i].id != d.rowId ==> after[i] == rows[i])
                       && (rows[i].id == d.rowId ==> after[i].payload == WithAlias(rows[i].payload, d.alias)))
  {
  }

  /** After a fold the row it landed on carries the candidate's key, as its own or recorded, unless
      there is no key or no room. */
  lemma FoldIsCarried(reader: Reader, c: Candidate, rows: seq<Row>, notReady: set<string>, newId: nat, status: Status, i: nat)
    requires NodeOf(reader, c, notReady).None? && Decide(reader, c, rows, notReady).Fold?
    requires i < |rows| && rows[i].id == Decide(reader, c, rows, notReady).rowId && rows[i] in OpenRows(rows)
    requires forall a, b :: 0 <= a < b < |rows| ==> rows[a].id != rows[b].id
    requires c.dedupeKey != "" && Strip(c.dedupeKey) == c.dedupeKey && |rows[i].payload.aliases| < 25
    ensures Carries(Applied(rows, c, Decide(reader, c, rows, notReady), newId, status)[i], c.dedupeKey)
  {
    var open, d := OpenRows(rows), Decide(reader, c, rows, notReady);
    var window := WindowOf(open);
    FoldRepeatFinds(reader, c, window);
    var k :| 0 <= k < |window| && Folds(reader, c, window[k]) && d.rowId == window[k].id
             && forall j :: 0 <= j < k ==> !Folds(reader, c, window[j]);
    FoldRepeatSays(reader, c, window, k);
    OpenRowsAreRows(rows, window[k]);
    var at :| 0 <= at < |rows| && rows[at] == window[k];
    assert at == i;
    AliasExactly(rows[i].payload, d.alias, c.dedupeKey);
  }

  // ---- asking again --------------------------------------------------------------------

  /** Something a later decision can recognise the candidate by. */
  predicate Recognisable(reader: Reader, c: Candidate, notReady: set<string>) {
    || NodeOf(reader, c, notReady).Some?
    || c.dedupeKey != ""
    || CandidateTargets(reader, c) != {}
    || reader.identifiers(c.recommendation) != {}
  }

  lemma ContainsItself(xs: set<Identity>)
    ensures TargetsContained(xs, xs) <==> xs != {}
  {
    forall x | x in xs
      ensures exists y :: y in xs && SameTarget(x, y)
    {
      assert SameTarget(x, x);
    }
    assert Covered(xs, xs);
  }

  lemma OwnRowNamesTheSame(reader: Reader, c: Candidate, row: Row)
    requires row.payload == InsertedPayload(c, c.dedupeKey)
    ensures RowTargets(reader, row) == CandidateTargets(reader, c)
  {
    assert Named(row.payload.targets, row.payload.foldTargets) == Named(c.targets, c.foldTargets);
  }

  /** A candidate folds onto the row inserted for it exactly when that row has no key of its own
      to be suppressed by and there is a target or identifier to match. */
  lemma FoldsOntoOwnRow(reader: Reader, c: Candidate, row: Row)
    requires row.payload == InsertedPayload(c, c.dedupeKey)
    ensures Folds(reader, c, row)
       <==> c.dedupeKey == "" && (CandidateTargets(reader, c) != {} || reader.identifiers(c.recommendation) != {})
  {
    if c.dedupeKey != "" {
      assert ExactRepeat(c, row);
    } else {
      OwnRowNamesTheSame(reader, c, row);
      ContainsItself(CandidateTargets(reader, c));
      assert FoldsByTarget(reader, c, row) <==> CandidateTargets(reader, c) != {};
    }
  }

  lemma NewMeansUnfolded(reader: Reader, c: Candidate, rows: seq<Row>, notReady: set<string>, i: nat)
    requires NodeOf(reader, c, notReady).None? && Decide(reader, c, rows, notReady).New?
    requires i < |WindowOf(OpenRows(rows))|
    ensures !Folds(reader, c, WindowOf(OpenRows(rows))[i])
  {
    FoldRepeatFinds(reader, c, WindowOf(OpenRows(rows)));
  }

  lemma AgainAfterNew(reader: Reader, c: Candidate, rows: seq<Row>, notReady: set<string>, row: Row)
    requires !Terminal(row.status) && row.payload == InsertedPayload(c, c.dedupeKey)
    requires NodeOf(reader, c, notReady).None? && Decide(reader, c, rows, notReady).New?
    ensures var again := Decide(reader, c, [row] + rows, notReady);
            if Recognisable(reader, c, notReady) then !again.New? && RowNamed(again, 0) == row.id else again.New?
  {
    var open := OpenRows(rows);
    assert ([row] + rows)[1..] == rows;
    assert OpenRows([row] + rows) == [row] + open;
    assert ([row] + open)[1..] == open;
    NewExactly(reader, c, rows, notReady);
    FoldsOntoOwnRow(reader, c, row);
    var window := WindowOf([row] + open);
    assert window[0] == row;
    if Folds(reader, c, row) {
      assert FoldRepeat(reader, c, window).Some? && FoldRepeat(reader, c, window).value.rowId == row.id;
    } else {
      forall i | 0 <= i < |window|
        ensures !Folds(reader, c, window[i])
      {
        if i > 0 {
          assert window[i] == WindowOf(open)[i - 1];
          NewMeansUnfolded(reader, c, rows, notReady, i - 1);
        }
      }
      FoldRepeatFinds(reader, c, window);
      assert c.dedupeKey != "" ==> FirstWithKey([row] + open, c.dedupeKey) == Some(row);
    }
  }

  lemma AgainAfterNewNode(reader: Reader, c: Candidate, rows: seq<Row>, notReady: set<string>, row: Row)
    requires !Terminal(row.status) && NodeOf(reader, c, notReady).Some?
    requires row.payload == InsertedPayload(c, NodeOf(reader, c, notReady).value.0)
    ensures var again := Decide(reader, c, [row] + rows, notReady);
            !again.New? && RowNamed(again, 0) == row.id
  {
    assert ([row] + rows)[1..] == rows;
    assert OpenRows([row] + rows) == [row] + OpenRows(rows);
  }

  lemma AliasKeepsFolds(reader: Reader, c: Candidate, row: Row, alias: string)
    ensures Folds(reader, c, row.(payload := WithAlias(row.payload, alias))) == Folds(reader, c, row)
  {
    var aliased := row.(payload := WithAlias(row.payload, alias));
    assert RowTargets(reader, aliased) == RowTargets(reader, row);
  }

  lemma {:induction false} AliasKeepsOpen(rows: seq<Row>, id: nat, alias: string)
    ensures OpenRows(AliasOn(rows, id, alias)) == AliasOn(OpenRows(rows), id, alias)
  {
    if rows != [] {
      AliasKeepsOpen(rows[1..], id, alias);
      assert AliasOn(rows, id, alias)[1..] == AliasOn(rows[1..], id, alias);
    }
  }

  lemma {:induction false} FoldRepeatAfterAlias(reader: Reader, c: Candidate, window: seq<Row>, id: nat, alias: string)
    ensures FoldRepeat(reader, c, window).Some? == FoldRepeat(reader, c, AliasOn(window, id, alias)).Some?
    ensures FoldRepeat(reader, c, window).Some? ==>
              && FoldRepeat(reader, c, window).value.Fold? && FoldRepeat(reader, c, AliasOn(window, id, alias)).value.Fold?
              && FoldRepeat(reader, c, window).value.rowId == FoldRepeat(reader, c, AliasOn(window, id, alias)).value.rowId
  {
    if window != [] {
      assert AliasOn(window, id, alias)[1..] == AliasOn(window[1..], id, alias);
      AliasKeepsFolds(reader, c, window[0], alias);
      FoldRepeatAfterAlias(reader, c, window[1..], id, alias);
    }
  }

  lemma EmptyAliasChangesNothing(rows: seq<Row>, id: nat)
    ensures AliasOn(rows, id, "") == rows
  {
  }

  lemma AgainAfterNodeFold(reader: Reader, c: Candidate, rows: seq<Row>, notReady: set<string>)
    requires Decide(reader, c, rows, notReady).Fold? && NodeOf(reader, c, notReady).Some?
    ensures var d := Decide(reader, c, rows, notReady);
            Decide(reader, c, AliasOn(rows, d.rowId, d.alias), notReady) == d
  {
    EmptyAliasChangesNothing(rows, Decide(reader, c, rows, notReady).rowId);
  }

  lemma AgainAfterFold(reader: Reader, c: Candidate, rows: seq<Row>, notReady: set<string>, id: nat, alias: string)
    requires Decide(reader, c, rows, notReady).Fold? && NodeOf(reader, c, notReady).None?
    ensures var again := Decide(reader, c, AliasOn(rows, id, alias), notReady);
            again.Fold? && again.rowId == Decide(reader, c, rows, notReady).rowId
  {
    var open := OpenRows(rows);
    AliasKeepsOpen(rows, id, alias);
    assert WindowOf(AliasOn(open, id, alias)) == AliasOn(WindowOf(open), id, alias);
    FoldRepeatAfterAlias(reader, c, WindowOf(open), id, alias);
  }

  /** Stability. Once a decision has been acted on, asking about the same candidate again, with
      the same NotReady nodes, names the same row and is not "new"; a candidate that nothing
      could recognise (no node, no key, no usable target, no identifier) is the only exception,
      and is new every time. */
  lemma AskingAgain(reader: Reader, c: Candidate, rows: seq<Row>, notReady: set<string>, newId: nat, status: Status)
    requires !Terminal(status)
    ensures var d := Decide(reader, c, rows, notReady);
            var again := Decide(reader, c, Applied(rows, c, d, newId, status), notReady);
            && (!again.New? <==> (!d.New? || Recognisable(reader, c, notReady)))
            && (!again.New? ==> RowNamed(again, newId) == RowNamed(d, newId))
  {
    var d := Decide(reader, c, rows, notReady);
    match d
    case New(key, _) =>
      var row := Row(newId, status, InsertedPayload(c, key));
      if NodeOf(reader, c, notReady).None? {
        NewExactly(reader, c, rows, notReady);
        DecideNewKey(reader, c, rows, notReady);
        AgainAfterNew(reader, c, rows, notReady, row);
      } else {
        AgainAfterNewNode(reader, c, rows, notReady, row);
      }
    case Fold(id, _, _, _, alias) =>
      if NodeOf(reader, c, notReady).None? {
        AgainAfterFold(reader, c, rows, notReady, id, alias);
      } else {
        AgainAfterNodeFold(reader, c, rows, notReady);
      }
    case Suppress(_, _) =>
  }

  /** A row inserted by "new" goes in under the candidate's key, or the node's. */
  lemma DecideNewKey(reader: Reader, c: Candidate, rows: seq<Row>, notReady: set<string>)
    requires Decide(reader, c, rows, notReady).New?
    ensures Decide(reader, c, rows, notReady).dedupeKey
         == match NodeOf(reader, c, notReady) case Some((nodeKey, _)) => nodeKey case None => c.dedupeKey
  {
    FoldRepeatFinds(reader, c, WindowOf(OpenRows(rows)));
  }

  // ---- however many rows arrive in between ------------------------------------------------

  datatype Enqueue = Enqueue(candidate: Candidate, notReady: set<string>, newId: nat, status: Status)

  function AfterEnqueues(reader: Reader, rows: seq<Row>, run: seq<Enqueue>): seq<Row> {
    if run == [] then rows
    else
      var before := AfterEnqueues(reader, rows, run[..|run| - 1]);
      var e := run[|run| - 1];
      Applied(before, e.candidate, Decide(reader, e.candidate, before, e.notReady), e.newId, e.status)
  }

  predicate OwnedByOpenRow(rows: seq<Row>, key: string) {
    exists i :: 0 <= i < |rows| && !Terminal(rows[i].status) && rows[i].payload.dedupeKey == key
  }

  lemma {:induction false} OpenRowsHolds(rows: seq<Row>, i: nat)
    requires i < |rows| && !Terminal(rows[i].status)
    ensures rows[i] in OpenRows(rows)
  {
    if i > 0 {
      assert rows[1..][i - 1] == rows[i];
      OpenRowsHolds(rows[1..], i - 1);
    }
  }

  lemma {:induction false} EnqueuesKeepOwners(reader: Reader, rows: seq<Row>, run: seq<Enqueue>, key: string)
    requires OwnedByOpenRow(rows, key)
    ensures OwnedByOpenRow(AfterEnqueues(reader, rows, run), key)
    decreases |run|
  {
    if run != [] {
      EnqueuesKeepOwners(reader, rows, run[..|run| - 1], key);
      var before := AfterEnqueues(reader, rows, run[..|run| - 1]);
      var after := AfterEnqueues(reader, rows, run);
      var i :| 0 <= i < |before| && !Terminal(before[i].status) && before[i].payload.dedupeKey == key;
      var e := run[|run| - 1];
      if Decide(reader, e.candidate, before, e.notReady).New? {
        assert after[i + 1] == before[i];
      } else {
        assert after[i].payload.dedupeKey == key;
      }
    }
  }

  lemma OwnerMeansNotNew(reader: Reader, c: Candidate, rows: seq<Row>, notReady: set<string>)
    requires c.dedupeKey != "" && NodeOf(reader, c, notReady).None? && OwnedByOpenRow(rows, c.dedupeKey)
    ensures !Decide(reader, c, rows, notReady).New?
  {
    var i :| 0 <= i < |rows| && !Terminal(rows[i].status) && rows[i].payload.dedupeKey == c.dedupeKey;
    OpenRowsHolds(rows, i);
    NewExactly(reader, c, rows, notReady);
  }

  lemma DecidedIsOwned(reader: Reader, c: Candidate, rows: seq<Row>, notReady: set<string>, newId: nat, status: Status)
    requires !Terminal(status) && NodeOf(reader, c, notReady).None? && !Decide(reader, c, rows, notReady).Fold?
    ensures OwnedByOpenRow(Applied(rows, c, Decide(reader, c, rows, notReady), newId, status), c.dedupeKey)
  {
    var d := Decide(reader, c, rows, notReady);
    NewExactly(reader, c, rows, notReady);
    if d.New? {
      DecideNewKey(reader, c, rows, notReady);
      assert Applied(rows, c, d, newId, status)[0].payload.dedupeKey == c.dedupeKey;
    } else {
      var r :| r in OpenRows(rows) && d.rowId == r.id && r.payload.dedupeKey == c.dedupeKey;
      OpenRowsAreRows(rows, r);
    }
  }

  /** A keyed candidate that was inserted or suppressed stays off the worklist while its row is
      open, however many enqueues push that row out of the fold window. */
  lemma KeyedStaysDeduplicated(reader: Reader, c: Candidate, rows: seq<Row>, run: seq<Enqueue>,
                               notReady: set<string>, later: set<string>, newId: nat, status: Status)
    requires c.dedupeKey != "" && !Terminal(status)
    requires NodeOf(reader, c, notReady).None? && NodeOf(reader, c, later).None?
    requires !Decide(reader, c, rows, notReady).Fold?
    ensures var d := Decide(reader, c, rows, notReady);
            !Decide(reader, c, AfterEnqueues(reader, Applied(rows, c, d, newId, status), run), later).New?
  {
    var applied := Applied(rows, c, Decide(reader, c, rows, notReady), newId, status);
    DecidedIsOwned(reader, c, rows, notReady, newId, status);
    EnqueuesKeepOwners(reader, applied, run, c.dedupeKey);
    OwnerMeansNotNew(reader, c, AfterEnqueues(reader, applied, run), later);
  }

  lemma {:induction false} OpenRowsAreRows(rows: seq<Row>, r: Row)
    requires r in OpenRows(rows)
    ensures exists i :: 0 <= i < |rows| && rows[i] == r && !Terminal(rows[i].status)
  {
    if Terminal(rows[0].status) || r != rows[0] {
      OpenRowsAreRows(rows[1..], r);
      var i :| 0 <= i < |rows[1..]| && rows[1..][i] == r && !Terminal(rows[1..][i].status);
      assert rows[i + 1] == r;
    } else {
      assert rows[0] == r;
    }
  }

  lemma {:induction false} AllOpen(rows: seq<Row>)
    requires forall i :: 0 <= i < |rows| ==> !Terminal(rows[i].status)
    ensures OpenRows(rows) == rows
  {
    if rows != [] {
      AllOpen(rows[1..]);
    }
  }

  /** A fold is only remembered inside the window. Behind a hundred open rows that neither fold
      the candidate nor own its key, the row it was folded onto is not looked at, its recorded
      alias included, and the candidate is new again. */
  lemma FoldForgottenBehindWindow(reader: Reader, c: Candidate, front: seq<Row>, home: Row, notReady: set<string>)
    requires |front| >= FOLD_WINDOW && NodeOf(reader, c, notReady).None?
    requires forall i :: 0 <= i < |front| ==>
               !Terminal(front[i].status) && !Folds(reader, c, front[i]) && front[i].payload.dedupeKey != c.dedupeKey
    requires !Terminal(home.status) && Folds(reader, c, home) && home.payload.dedupeKey != c.dedupeKey
    ensures Decide(reader, c, front + [home], notReady).New?
    ensures Decide(reader, c, [home], notReady).Fold?
  {
    var rows := front + [home];
    AllOpen(rows);
    AllOpen([home]);
    NewExactly(reader, c, rows, notReady);
    NewExactly(reader, c, [home], notReady);
    assert Folds(reader, c, WindowOf([home])[0]);
    FoldRepeatFinds(reader, c, [home]);
  }
}
