/** Runs of the remediation queue: the drainer, the reaper, the executor Jobs, the trackers and
    the operators as interleaved steps, each one transaction on the table. */
module RemediationRuns {
  import opened Wrappers
  import opened Remediation
  import opened RemediationPolicy
  import opened RemediationTable
  import opened Floats
  import opened Text

  /** Beside the table: the policy in force, the claims the drainer is working on, the confirmed
      commands being started, the Approves that have read their row and not yet written it, and
      the ids the reaper has read but not yet failed. */
  datatype State = State(policy: Policy, rows: Table, held: set<nat>, confirming: set<nat>,
                         approving: multiset<nat>, stale: set<nat>)

  // ---- one step -------------------------------------------------------------------

  function Next(s: State, step: Step): State {
    State(
      if step.Reload? then step.policy else s.policy,
      Effect(s.policy, s.rows, step),
      match step {
        case Claim(id, _, _, _) => s.held + {id}
        case Release(id) => s.held - {id}
        case DrainerFail(id) => s.held - {id}
        case HandOff(id) => s.held - {id}
        case _ => s.held
      },
      match step {
        case EnqueueConfirmed(_, _, _) =>
          if Appended(s.policy, s.rows, step).Some? then s.confirming + {|s.rows| + 1} else s.confirming
        case HandOff(id) => s.confirming - {id}
        case _ => s.confirming
      },
      match step {
        case ApproveReads(id) =>
          if Exists(s.rows, id) && !ApproveConflict(RowOf(s.rows, id)) then s.approving + multiset{id} else s.approving
        case ApproveWrites(id) => s.approving - multiset{id}
        case _ => s.approving
      },
      match step {
        case SelectStale(now) => s.stale + Stale(s.rows, now - s.policy.leaseTimeout)
        case ReaperFail(id) => s.stale - {id}
        case _ => s.stale
      })
  }

  /** What the callers keep to. Feeds put the key in the payload as well as in the argument and
      leave the confirmed source alone; claims are the database's answer; the drainer, the reaper
      and Approve write only to rows they claimed or read; everything else that writes a status
      (executor completions, the reconciler, the tracker tick, operators) writes one of six; and
      a policy put in force is one that a configuration resolves to. */
  predicate Allowed(s: State, step: Step) {
    match step
    case Enqueue(_, payload, _, _, _, key, _, _) => key == payload.dedupeKey && payload.source != CONFIRMED_SOURCE
    case EnqueueConfirmed(payload, _, _) => payload.dedupeKey == ""
    case Claim(id, _, exclude, _) => IsNext(s.rows, exclude, id)
    case Persist(id) => id in s.held || id in s.confirming
    case Release(id) => id in s.held
    case DrainerFail(id) => id in s.held
    case HandOff(id) => id in s.held || id in s.confirming
    case ReaperFail(id) => id in s.stale
    case SetStatus(_, status, _) =>
      status in {PrOpen, NeedsHuman, Failed, Resolved, Rejected, Filed}
    case ApproveWrites(id) => id in s.approving
    case Reload(policy) => Live(policy)
    case _ => true
  }

  /** A claim takes a queued row that no other row outside the exclusions precedes in priority, or
      in age at the same priority. */
  lemma ClaimTakesTheFirst(s: State, step: Step, other: nat)
    requires step.Claim? && Allowed(s, step)
    requires Exists(s.rows, other) && other !in step.exclude && RowOf(s.rows, other).status == Queued
    ensures Exists(s.rows, step.id) && step.id !in step.exclude && RowOf(s.rows, step.id).status == Queued
    ensures var row, behind := RowOf(s.rows, step.id), RowOf(s.rows, other);
            row.priority < behind.priority || (row.priority == behind.priority && row.createdAt <= behind.createdAt)
  {
  }

  // ---- runs -----------------------------------------------------------------------

  function AfterFrom(s: State, run: seq<Step>): State {
    if run == [] then s else Next(AfterFrom(s, run[..|run| - 1]), run[|run| - 1])
  }

  predicate AllowedFrom(s: State, run: seq<Step>) {
    run == [] || (AllowedFrom(s, run[..|run| - 1]) && Allowed(AfterFrom(s, run[..|run| - 1]), run[|run| - 1]))
  }

  /** The empty queue under the policy the process starts with. */
  function Initial(policy: Policy): State {
    State(policy, [], {}, {}, multiset{}, {})
  }

  function After(policy: Policy, run: seq<Step>): State {
    AfterFrom(Initial(policy), run)
  }

  predicate Disciplined(policy: Policy, run: seq<Step>) {
    AllowedFrom(Initial(policy), run)
  }

  /** The row enters `queued` from outside the claim, release and fail cycle: it passes the gate
      under the policy in force, or an operator approves it. */
  predicate Grants(s: State, step: Step, id: nat) {
    match step
    case Enqueue(cls, _, risk, confidence, _, _, prUrl, _) =>
      && Appended(s.policy, s.rows, step).Some? && id == |s.rows| + 1 && PrOf(prUrl).None?
      && AutoEligible(s.policy, NormalizedClass(cls), NormalizedRisk(risk), confidence)
    case Reclassify(_, o) =>
      && step.id == id && Exists(s.rows, id) && Regated(RowOf(s.rows, id).status)
      && var r := ReclassifiedRow(s.policy, RowOf(s.rows, id), o); AutoEligible(s.policy, r.cls, r.risk, r.confidence)
    case ApproveWrites(_) => step.id == id && Exists(s.rows, id)
    case _ => false
  }

  /** Someone still has the row in hand: the drainer, the start of a confirmed command, the
      reaper, or an Approve between its read and its write. */
  predicate Ticketed(s: State, id: nat) {
    id in s.held || id in s.confirming || id in s.stale || id in s.approving
  }

  /** An operator makes the row manual while it is leased or someone has it in hand. */
  predicate MakesManual(s: State, step: Step, id: nat) {
    && step.Reclassify? && step.id == id && Exists(s.rows, id)
    && (InFlight(RowOf(s.rows, id).status) || Ticketed(s, id))
    && ReclassifiedRow(s.policy, RowOf(s.rows, id), step.override).cls == "manual"
  }

  /** The change record is written onto a row that has lost its lease. */
  predicate PersistsUnleased(s: State, step: Step, id: nat) {
    step.Persist? && step.id == id && Exists(s.rows, id) && RowOf(s.rows, id).claimedAt.None?
  }

  predicate HasPr(row: Row) {
    row.prUrl.Some? && row.prUrl.value != ""
  }

  /** The row gets a pull request between the read and the write of an Approve. */
  predicate GainsPrInHand(s: State, step: Step, id: nat) {
    && Exists(s.rows, id) && id in s.approving && !HasPr(RowOf(s.rows, id))
    && HasPr(RowOf(Effect(s.policy, s.rows, step), id))
  }

  /** Some step of the run grants the row, makes it manual, persists it unleased, or gives it a
      pull request while an Approve has it in hand. */
  predicate Granted(policy: Policy, run: seq<Step>, id: nat) {
    run != [] && (Granted(policy, run[..|run| - 1], id)
                  || Grants(After(policy, run[..|run| - 1]), run[|run| - 1], id))
  }

  predicate MadeManual(policy: Policy, run: seq<Step>, id: nat) {
    run != [] && (MadeManual(policy, run[..|run| - 1], id)
                  || MakesManual(After(policy, run[..|run| - 1]), run[|run| - 1], id))
  }

  predicate PersistedUnleased(policy: Policy, run: seq<Step>, id: nat) {
    run != [] && (PersistedUnleased(policy, run[..|run| - 1], id)
                  || PersistsUnleased(After(policy, run[..|run| - 1]), run[|run| - 1], id))
  }

  predicate GainedPrInHand(policy: Policy, run: seq<Step>, id: nat) {
    run != [] && (GainedPrInHand(policy, run[..|run| - 1], id)
                  || GainsPrInHand(After(policy, run[..|run| - 1]), run[|run| - 1], id))
  }

  // ---- the invariant ----------------------------------------------------------------

  predicate OnCycle(s: State, id: nat)
    requires Exists(s.rows, id)
  {
    RowOf(s.rows, id).status.Queued? || InFlight(RowOf(s.rows, id).status) || Ticketed(s, id)
  }

  /** What the run has done to a row so far. */
  datatype Past = Past(granted: bool, manual: bool, unleased: bool, stamped: bool)

  function PastOf(policy: Policy, run: seq<Step>, id: nat): Past {
    Past(Granted(policy, run, id), MadeManual(policy, run, id), PersistedUnleased(policy, run, id),
         GainedPrInHand(policy, run, id))
  }

  function PastAfter(past: Past, s: State, step: Step, id: nat): Past {
    Past(past.granted || Grants(s, step, id), past.manual || MakesManual(s, step, id),
         past.unleased || PersistsUnleased(s, step, id), past.stamped || GainsPrInHand(s, step, id))
  }

  /** What is true of one row, given its past. */
  predicate RowInv(s: State, id: nat, past: Past) {
    if !Exists(s.rows, id) then !Ticketed(s, id)
    else
      var row := RowOf(s.rows, id);
      && (row.status.Queued? || id in s.held ==> past.granted)
      && ((InFlight(row.status) || id in s.stale) && !Confirmed(row) ==> past.granted)
      && (id in s.confirming ==> Confirmed(row))
      && (row.cls == "manual" && OnCycle(s, id) ==> past.manual)
      && (id in s.approving && HasPr(row) ==> past.stamped)
      && (row.job.Some? <==> row.claimedAt.Some?)
      && (InFlight(row.status) && row.claimedAt.None? ==> past.unleased)
  }

  lemma EnteringRowKeeps(s: State, step: Step, id: nat)
    requires Live(s.policy) && Allowed(s, step)
    requires !Exists(s.rows, id) && !Ticketed(s, id)
    ensures RowInv(Next(s, step), id, Past(Grants(s, step, id), false, false, false))
  {
    EffectAt(s.policy, s.rows, step, id);
  }

  lemma StepKeepsRow(s: State, step: Step, id: nat, past: Past)
    requires Live(s.policy) && Allowed(s, step)
    requires Exists(s.rows, id) && RowInv(s, id, past)
    ensures RowInv(Next(s, step), id, PastAfter(past, s, step, id))
  {
    if LeaseStep(step) {
      LeaseStepKeepsRow(s, step, id, past);
    } else if step.Reclassify? {
      ReclassifyKeepsRow(s, step, id, past);
    } else if OperatorStep(step) {
      OperatorStepKeepsRow(s, step, id, past);
    } else {
      OtherStepKeepsRow(s, step, id, past);
    }
  }

  predicate OperatorStep(step: Step) {
    step.Reclassify? || step.ApproveReads? || step.ApproveWrites? || step.Reload?
  }

  lemma ReclassifyKeepsRow(s: State, step: Step, id: nat, past: Past)
    requires Live(s.policy) && Allowed(s, step) && step.Reclassify?
    requires Exists(s.rows, id) && RowInv(s, id, past)
    ensures RowInv(Next(s, step), id, PastAfter(past, s, step, id))
  {
    EffectAt(s.policy, s.rows, step, id);
  }

  lemma OperatorStepKeepsRow(s: State, step: Step, id: nat, past: Past)
    requires Live(s.policy) && Allowed(s, step) && OperatorStep(step) && !step.Reclassify?
    requires Exists(s.rows, id) && RowInv(s, id, past)
    ensures RowInv(Next(s, step), id, PastAfter(past, s, step, id))
  {
    EffectAt(s.policy, s.rows, step, id);
  }

  /** A step of the drainer or the reaper. */
  predicate LeaseStep(step: Step) {
    step.Claim? || step.Persist? || step.Release? || step.DrainerFail? || step.HandOff? || step.SelectStale? || step.ReaperFail?
  }

  lemma LeaseStepKeepsRow(s: State, step: Step, id: nat, past: Past)
    requires Live(s.policy) && Allowed(s, step) && LeaseStep(step)
    requires Exists(s.rows, id) && RowInv(s, id, past)
    ensures RowInv(Next(s, step), id, PastAfter(past, s, step, id))
  {
    EffectAt(s.policy, s.rows, step, id);
  }

  lemma OtherStepKeepsRow(s: State, step: Step, id: nat, past: Past)
    requires Live(s.policy) && Allowed(s, step) && !LeaseStep(step) && !OperatorStep(step)
    requires Exists(s.rows, id) && RowInv(s, id, past)
    ensures RowInv(Next(s, step), id, PastAfter(past, s, step, id))
  {
    EffectAt(s.policy, s.rows, step, id);
  }

  lemma {:induction false} PolicyStaysLive(policy: Policy, run: seq<Step>)
    requires Live(policy) && Disciplined(policy, run)
    ensures Live(After(policy, run).policy)
    decreases |run|
  {
    if run != [] {
      PolicyStaysLive(policy, run[..|run| - 1]);
    }
  }

  lemma {:induction false} RunKeepsRow(policy: Policy, run: seq<Step>, id: nat)
    requires Live(policy) && Disciplined(policy, run)
    ensures RowInv(After(policy, run), id, PastOf(policy, run, id))
    decreases |run|
  {
    if run != [] {
      var before, step := run[..|run| - 1], run[|run| - 1];
      var s := After(policy, before);
      RunKeepsRow(policy, before, id);
      PolicyStaysLive(policy, before);
      if Exists(s.rows, id) {
        StepKeepsRow(s, step, id, PastOf(policy, before, id));
        assert PastOf(policy, run, id) == PastAfter(PastOf(policy, before, id), s, step, id);
      } else {
        EnteringRowKeeps(s, step, id);
      }
    }
  }

  // ---- provenance -------------------------------------------------------------------

  predicate EverQueued(policy: Policy, run: seq<Step>, id: nat) {
    run != [] && (EverQueued(policy, run[..|run| - 1], id)
                  || (Exists(After(policy, run).rows, id) && RowOf(After(policy, run).rows, id).status.Queued?))
  }

  /** A grant queues the row; and no grant but an Approve that had read the row before is ever of
      a manual one. */
  lemma GrantQueues(s: State, step: Step, id: nat)
    requires Live(s.policy) && Grants(s, step, id)
    ensures Exists(Next(s, step).rows, id)
    ensures var row := RowOf(Next(s, step).rows, id);
            && row.status.Queued?
            && (!step.ApproveWrites? ==> MayBeAuto(row.cls) && row.risk == "low" && row.confidence.Some?)
  {
    EffectAt(s.policy, s.rows, step, id);
  }

  /** Provenance: over every run, a row was ever in the queue exactly if the gate under the
      policy then in force, or an operator's Approve, let it in; the claim, release and fail
      cycle by itself lets nothing in. */
  lemma {:induction false} QueuedExactlyIfGranted(policy: Policy, run: seq<Step>, id: nat)
    requires Live(policy) && Disciplined(policy, run)
    ensures EverQueued(policy, run, id) <==> Granted(policy, run, id)
    decreases |run|
  {
    if run != [] {
      var before := run[..|run| - 1];
      QueuedExactlyIfGranted(policy, before, id);
      PolicyStaysLive(policy, before);
      RunKeepsRow(policy, run, id);
      if Grants(After(policy, before), run[|run| - 1], id) {
        GrantQueues(After(policy, before), run[|run| - 1], id);
      }
    }
  }

  /** Every row the drainer is handed was let into the queue by the gate or by an operator, and
      a manual row is handed out only if an operator made it manual while it was already leased,
      or while the drainer, the reaper or an Approve had it in hand. */
  lemma ClaimsAreGranted(policy: Policy, run: seq<Step>, claim: Step)
    requires Live(policy) && Disciplined(policy, run)
    requires claim.Claim? && Allowed(After(policy, run), claim)
    ensures Granted(policy, run, claim.id)
    ensures RowOf(After(policy, run).rows, claim.id).cls == "manual" ==> MadeManual(policy, run, claim.id)
  {
    RunKeepsRow(policy, run, claim.id);
  }

  // ---- from where a row that Approve refuses can still be handed out ----------------------

  /** Some claim would be handed the row. */
  ghost predicate HandsOut(s: State, id: nat) {
    exists claim: Step :: HandsTo(s, claim, id)
  }

  predicate HandsTo(s: State, claim: Step, id: nat) {
    claim.Claim? && claim.id == id && Allowed(s, claim)
  }

  lemma HandsOutQueued(s: State, id: nat)
    ensures HandsOut(s, id) <==> Exists(s.rows, id) && RowOf(s.rows, id).status.Queued?
  {
    if Exists(s.rows, id) && RowOf(s.rows, id).status.Queued? {
      var others := set n: nat | 1 <= n <= |s.rows| && Claimable(s.rows, {id}, n);
      assert HandsTo(s, Claim(id, "", others, 0), id);
    }
  }

  /** The two reasons for which Approve refuses a row. */
  datatype Bar = IsManual | WithPr

  predicate Barred(row: Row, bar: Bar) {
    match bar
    case IsManual => row.cls == "manual"
    case WithPr => HasPr(row)
  }

  /** The step does not put an empty URL over the row's pull request. */
  predicate KeepsPr(step: Step, id: nat) {
    (step.SetStatus? || step.MergePayload?) && step.id == id ==> step.prUrl != Some("")
  }

  /** The step does not lift the bar by itself: a manual row is not reclassified; one with a pull
      request is not reclassified through the gate and does not lose its URL; and the attempt cap
      is not raised. */
  predicate KeepsBar(s: State, step: Step, id: nat, bar: Bar) {
    && (step.Reload? ==> step.policy.maxAttempts <= s.policy.maxAttempts)
    && match bar
       case IsManual => !(step.Reclassify? && step.id == id)
       case WithPr => !(step.Reclassify? && Grants(s, step, id)) && KeepsPr(step, id)
  }

  predicate LeftBarred(s: State, more: seq<Step>, id: nat, bar: Bar) {
    more == [] || (&& LeftBarred(s, more[..|more| - 1], id, bar)
                   && KeepsBar(AfterFrom(s, more[..|more| - 1]), more[|more| - 1], id, bar))
  }

  /** The row is queued, or someone will put it back there: the drainer or an Approve that has it
      in hand, or the reaper, now or when its lease expires, if it has an attempt left. */
  predicate CanReturn(s: State, id: nat) {
    && Exists(s.rows, id)
    && var row := RowOf(s.rows, id);
       || row.status.Queued? || id in s.held || id in s.approving
       || (&& !Confirmed(row) && row.attempts + 1 < s.policy.maxAttempts
           && (id in s.stale || (InFlight(row.status) && row.claimedAt.Some?)))
  }

  predicate Stuck(s: State, id: nat, bar: Bar) {
    && Exists(s.rows, id) && Barred(RowOf(s.rows, id), bar) && !CanReturn(s, id)
    && (id in s.confirming ==> Confirmed(RowOf(s.rows, id)))
  }

  lemma StuckStep(s: State, step: Step, id: nat, bar: Bar)
    requires Stuck(s, id, bar) && Allowed(s, step) && KeepsBar(s, step, id, bar)
    ensures Stuck(Next(s, step), id, bar)
  {
    if LeaseStep(step) {
      LeaseStepStuck(s, step, id, bar);
    } else if OperatorStep(step) {
      OperatorStepStuck(s, step, id, bar);
    } else {
      OtherStepStuck(s, step, id, bar);
    }
  }

  lemma LeaseStepStuck(s: State, step: Step, id: nat, bar: Bar)
    requires Stuck(s, id, bar) && Allowed(s, step) && KeepsBar(s, step, id, bar) && LeaseStep(step)
    ensures Stuck(Next(s, step), id, bar)
  {
    EffectAt(s.policy, s.rows, step, id);
  }

  lemma OperatorStepStuck(s: State, step: Step, id: nat, bar: Bar)
    requires Stuck(s, id, bar) && Allowed(s, step) && KeepsBar(s, step, id, bar) && OperatorStep(step)
    ensures Stuck(Next(s, step), id, bar)
  {
    EffectAt(s.policy, s.rows, step, id);
  }

  lemma OtherStepStuck(s: State, step: Step, id: nat, bar: Bar)
    requires Stuck(s, id, bar) && Allowed(s, step) && KeepsBar(s, step, id, bar) && !LeaseStep(step) && !OperatorStep(step)
    ensures Stuck(Next(s, step), id, bar)
  {
    EffectAt(s.policy, s.rows, step, id);
  }

  lemma {:induction false} StuckStays(s: State, more: seq<Step>, id: nat, bar: Bar)
    requires Stuck(s, id, bar) && AllowedFrom(s, more) && LeftBarred(s, more, id, bar)
    ensures Stuck(AfterFrom(s, more), id, bar)
    decreases |more|
  {
    if more != [] {
      var before := more[..|more| - 1];
      StuckStays(s, before, id, bar);
      StuckStep(AfterFrom(s, before), more[|more| - 1], id, bar);
    }
  }

  lemma OneMore(s: State, run: seq<Step>, step: Step)
    ensures AfterFrom(s, run + [step]) == Next(AfterFrom(s, run), step)
    ensures AllowedFrom(s, run + [step]) == (AllowedFrom(s, run) && Allowed(AfterFrom(s, run), step))
    ensures forall id, bar :: LeftBarred(s, run + [step], id, bar)
                              == (LeftBarred(s, run, id, bar) && KeepsBar(AfterFrom(s, run), step, id, bar))
  {
    assert (run + [step])[..|run|] == run;
  }

  /** Continuations that hand the row out while it is barred. */
  ghost predicate HandsBarred(s: State, more: seq<Step>, id: nat, bar: Bar) {
    && AllowedFrom(s, more) && LeftBarred(s, more, id, bar)
    && HandsOut(AfterFrom(s, more), id) && Barred(RowOf(AfterFrom(s, more).rows, id), bar)
  }

  lemma QueuedHandsBarred(s: State, more: seq<Step>, id: nat, bar: Bar)
    requires AllowedFrom(s, more) && LeftBarred(s, more, id, bar) && Exists(AfterFrom(s, more).rows, id)
    requires RowOf(AfterFrom(s, more).rows, id).status.Queued? && Barred(RowOf(AfterFrom(s, more).rows, id), bar)
    ensures HandsBarred(s, more, id, bar)
  {
    HandsOutQueued(AfterFrom(s, more), id);
  }

  lemma ReturnInOne(s: State, step: Step, id: nat, bar: Bar)
    requires Exists(s.rows, id) && Barred(RowOf(s.rows, id), bar) && Allowed(s, step)
    requires (step.Release? || step.ApproveWrites? || step.ReaperFail?) && step.id == id
    requires step.ReaperFail? ==> !Confirmed(RowOf(s.rows, id)) && RowOf(s.rows, id).attempts + 1 < s.policy.maxAttempts
    ensures HandsBarred(s, [step], id, bar)
  {
    OneMore(s, [], step);
    assert [] + [step] == [step];
    EffectAt(s.policy, s.rows, step, id);
    QueuedHandsBarred(s, [step], id, bar);
  }

  lemma ReaperReads(s: State, id: nat, late: int)
    requires Exists(s.rows, id) && StaleAt(s.rows, late - s.policy.leaseTimeout, id)
    ensures var read := Next(s, SelectStale(late));
            read.policy == s.policy && |read.rows| == |s.rows| && RowOf(read.rows, id) == RowOf(s.rows, id) && id in read.stale
  {
    EffectAt(s.policy, s.rows, SelectStale(late), id);
  }

  lemma ReaperFails(read: State, id: nat)
    requires Exists(read.rows, id) && id in read.stale
    requires !Confirmed(RowOf(read.rows, id)) && RowOf(read.rows, id).attempts + 1 < read.policy.maxAttempts
    ensures var failed := Next(read, ReaperFail(id));
            && Exists(failed.rows, id) && RowOf(failed.rows, id).status.Queued?
            && forall bar :: Barred(RowOf(read.rows, id), bar) ==> Barred(RowOf(failed.rows, id), bar)
  {
    EffectAt(read.policy, read.rows, ReaperFail(id), id);
  }

  lemma ReturnByReaper(s: State, id: nat, bar: Bar)
    requires Exists(s.rows, id) && Barred(RowOf(s.rows, id), bar)
    requires !Confirmed(RowOf(s.rows, id)) && RowOf(s.rows, id).attempts + 1 < s.policy.maxAttempts
    requires InFlight(RowOf(s.rows, id).status) && RowOf(s.rows, id).claimedAt.Some?
    ensures var late := RowOf(s.rows, id).claimedAt.value + s.policy.leaseTimeout + 1;
            HandsBarred(s, [SelectStale(late), ReaperFail(id)], id, bar)
  {
    var late := RowOf(s.rows, id).claimedAt.value + s.policy.leaseTimeout + 1;
    ReaperReads(s, id, late);
    var read := Next(s, SelectStale(late));
    ReaperFails(read, id);
    OneMore(s, [], SelectStale(late));
    assert [] + [SelectStale(late)] == [SelectStale(late)];
    OneMore(s, [SelectStale(late)], ReaperFail(id));
    assert [SelectStale(late)] + [ReaperFail(id)] == [SelectStale(late), ReaperFail(id)];
    QueuedHandsBarred(s, [SelectStale(late), ReaperFail(id)], id, bar);
  }

  lemma CanReturnHandsOut(s: State, id: nat, bar: Bar)
    requires CanReturn(s, id) && Barred(RowOf(s.rows, id), bar)
    ensures exists more :: HandsBarred(s, more, id, bar)
  {
    if RowOf(s.rows, id).status.Queued? {
      QueuedHandsBarred(s, [], id, bar);
    } else if id in s.held {
      ReturnInOne(s, Release(id), id, bar);
    } else if id in s.approving {
      ReturnInOne(s, ApproveWrites(id), id, bar);
    } else if id in s.stale {
      ReturnInOne(s, ReaperFail(id), id, bar);
    } else {
      ReturnByReaper(s, id, bar);
    }
  }

  lemma BarredHandedOutExactly(policy: Policy, run: seq<Step>, id: nat, s: State, bar: Bar)
    requires Live(policy) && Disciplined(policy, run) && s == After(policy, run)
    requires Exists(s.rows, id) && Barred(RowOf(s.rows, id), bar)
    ensures (exists more :: HandsBarred(s, more, id, bar)) <==> CanReturn(s, id)
  {
    RunKeepsRow(policy, run, id);
    if CanReturn(s, id) {
      CanReturnHandsOut(s, id, bar);
    } else {
      forall more | AllowedFrom(s, more) && LeftBarred(s, more, id, bar)
        ensures !HandsBarred(s, more, id, bar)
      {
        StuckStays(s, more, id, bar);
        HandsOutQueued(AfterFrom(s, more), id);
      }
    }
  }

  /** From a reachable state, and unless an operator reclassifies it or the attempt cap is raised,
      a manual row can still be handed out if and only if it is queued, or the drainer or an
      Approve has it in hand, or it has an attempt left and the reaper has read it or will. */
  lemma ManualHandedOutExactly(policy: Policy, run: seq<Step>, id: nat, s: State)
    requires Live(policy) && Disciplined(policy, run) && s == After(policy, run)
    requires Exists(s.rows, id) && RowOf(s.rows, id).cls == "manual"
    ensures (exists more :: HandsBarred(s, more, id, IsManual)) <==> CanReturn(s, id)
  {
    BarredHandedOutExactly(policy, run, id, s, IsManual);
  }

  /** The same for a row that has a pull request, which the executor would give a second one: from
      a reachable state it can still be handed out, without a Reclassify through the gate, a
      higher attempt cap or an emptied URL, if and only if it is queued or can return there. */
  lemma PrHandedOutExactly(policy: Policy, run: seq<Step>, id: nat, s: State)
    requires Live(policy) && Disciplined(policy, run) && s == After(policy, run)
    requires Exists(s.rows, id) && HasPr(RowOf(s.rows, id))
    ensures (exists more :: HandsBarred(s, more, id, WithPr)) <==> CanReturn(s, id)
  {
    BarredHandedOutExactly(policy, run, id, s, WithPr);
  }

  // ---- runs that happen -------------------------------------------------------------------

  /** The policy of an installation that configures nothing. */
  const SHIPPED := Policy(DEFAULT_AUTO, DEFAULT_MIN_CONFIDENCE, DEFAULT_LEASE_S, DEFAULT_MAX_ATTEMPTS, DEFAULT_CONFIDENCE_CAP)

  lemma RunOf(run: seq<Step>, step: Step)
    ensures After(SHIPPED, run + [step]) == Next(After(SHIPPED, run), step)
    ensures Disciplined(SHIPPED, run + [step]) == (Disciplined(SHIPPED, run) && Allowed(After(SHIPPED, run), step))
  {
    OneMore(Initial(SHIPPED), run, step);
  }

  const BLANK := Payload("", [], "", [], [], "")
  const PATCH := Enqueue("gitops-patch", BLANK, "low", Some(Number(0.9)), 5, "", None, 0)
  const PATCH_ROW := Row("gitops-patch", "low", Some(Number(0.9)), Queued, 5, 0, BLANK, None, None, None, 0)
  const HUNCH := Enqueue("gitops-patch", BLANK, "low", None, 5, "", None, 0)
  const HUNCH_ROW := PATCH_ROW.(confidence := None, status := NeedsHuman)

  lemma OneRow(step: Step, row: Row)
    requires (step == PATCH && row == PATCH_ROW) || (step == HUNCH && row == HUNCH_ROW)
    ensures Disciplined(SHIPPED, [step])
    ensures After(SHIPPED, [step]) == State(SHIPPED, [row], {}, {}, multiset{}, {})
  {
    RunOf([], step);
    assert [] + [step] == [step];
    assert Effect(SHIPPED, [], step) == [row];
  }

  lemma OnlyRowAfter(s: State, row: Row, step: Step)
    requires s.rows == [row] && Targets(step, 1) && !step.Recover?
    ensures Next(s, step).rows == [RowAfter(s.policy, row, step)]
  {
    EffectOnOne(s.policy, [row], step, 1);
  }

  /** A step that changes a row and nothing that anyone has in hand. */
  lemma RowChanges(run: seq<Step>, s: State, row: Row, step: Step)
    requires Disciplined(SHIPPED, run) && After(SHIPPED, run) == s && s.rows == [row]
    requires (step.MergePayload? || step.SetStatus? || step.Reclassify?) && step.id == 1 && Allowed(s, step)
    ensures Disciplined(SHIPPED, run + [step])
    ensures After(SHIPPED, run + [step]) == s.(rows := [RowAfter(s.policy, row, step)])
  {
    RunOf(run, step);
    OnlyRowAfter(s, row, step);
  }

  /** The step that queues the row; the next claim is handed it. */
  lemma RowIsHandedOut(run: seq<Step>, s: State, row: Row, step: Step, job: string)
    requires Disciplined(SHIPPED, run) && After(SHIPPED, run) == s && s.rows == [row]
    requires Targets(step, 1) && !step.Recover? && Allowed(s, step) && RowAfter(s.policy, row, step).status.Queued?
    ensures Disciplined(SHIPPED, run + [step])
    ensures After(SHIPPED, run + [step]).rows == [RowAfter(s.policy, row, step)]
    ensures Allowed(After(SHIPPED, run + [step]), Claim(1, job, {}, 2))
  {
    RunOf(run, step);
    OnlyRowAfter(s, row, step);
  }

  const HELD: seq<Step> := [PATCH, Claim(1, "a", {}, 0)]
  const HELD_ROW := ClaimedRow(PATCH_ROW, "a", 0)

  lemma OneHeld()
    ensures Disciplined(SHIPPED, HELD)
    ensures After(SHIPPED, HELD) == State(SHIPPED, [HELD_ROW], {1}, {}, multiset{}, {})
  {
    var claim := Claim(1, "a", {}, 0);
    OneRow(PATCH, PATCH_ROW);
    RunOf([PATCH], claim);
    OnlyRowAfter(After(SHIPPED, [PATCH]), PATCH_ROW, claim);
    assert HELD == [PATCH] + [claim];
  }

  lemma OneHeldRead()
    ensures Disciplined(SHIPPED, HELD + [SelectStale(1801)])
    ensures After(SHIPPED, HELD + [SelectStale(1801)]) == State(SHIPPED, [HELD_ROW], {1}, {}, multiset{}, {1})
  {
    OneHeld();
    RunOf(HELD, SelectStale(1801));
    assert Effect(SHIPPED, [HELD_ROW], SelectStale(1801)) == [HELD_ROW];
    assert StaleAt([HELD_ROW], 1, 1);
    assert Stale([HELD_ROW], 1) == {1};
  }

  const MAKE_MANUAL := Reclassify(1, Override(Some("manual"), None, None))

  /** Made manual while leased, the row goes back to the queue when the drainer lets it go, and
      the next claim hands it out. */
  lemma ManualRowHandedOut()
    ensures var run := HELD + [MAKE_MANUAL] + [Release(1)];
            && Disciplined(SHIPPED, run)
            && Allowed(After(SHIPPED, run), Claim(1, "b", {}, 2))
            && RowOf(After(SHIPPED, run).rows, 1).cls == "manual"
  {
    OneHeld();
    var held := After(SHIPPED, HELD);
    RowChanges(HELD, held, HELD_ROW, MAKE_MANUAL);
    var leased := HELD_ROW.(cls := "manual");
    RowIsHandedOut(HELD + [MAKE_MANUAL], held.(rows := [leased]), leased, Release(1), "b");
  }

  const READ_TO_APPROVE: seq<Step> := [HUNCH, ApproveReads(1)]

  lemma OneApproving()
    ensures Disciplined(SHIPPED, READ_TO_APPROVE)
    ensures After(SHIPPED, READ_TO_APPROVE) == State(SHIPPED, [HUNCH_ROW], {}, {}, multiset{1}, {})
  {
    OneRow(HUNCH, HUNCH_ROW);
    RunOf([HUNCH], ApproveReads(1));
    OnlyRowAfter(After(SHIPPED, [HUNCH]), HUNCH_ROW, ApproveReads(1));
    assert READ_TO_APPROVE == [HUNCH] + [ApproveReads(1)];
  }

  /** Made manual between the read and the write of an Approve, a row is queued and handed out. */
  lemma ManualRowApproved()
    ensures var run := READ_TO_APPROVE + [MAKE_MANUAL] + [ApproveWrites(1)];
            && Disciplined(SHIPPED, run)
            && Allowed(After(SHIPPED, run), Claim(1, "a", {}, 2))
            && RowOf(After(SHIPPED, run).rows, 1).cls == "manual"
  {
    OneApproving();
    var read := After(SHIPPED, READ_TO_APPROVE);
    RowChanges(READ_TO_APPROVE, read, HUNCH_ROW, MAKE_MANUAL);
    var parked := HUNCH_ROW.(cls := "manual");
    RowIsHandedOut(READ_TO_APPROVE + [MAKE_MANUAL], read.(rows := [parked]), parked, ApproveWrites(1), "a");
  }

  /** Given a pull request between the read and the write of an Approve, a row is queued, and the
      executor will open a second one. */
  lemma RowWithPrApproved(url: string)
    requires url != ""
    ensures var run := READ_TO_APPROVE + [SetStatus(1, PrOpen, Some(url))] + [ApproveWrites(1)];
            && Disciplined(SHIPPED, run)
            && Allowed(After(SHIPPED, run), Claim(1, "a", {}, 2))
            && HasPr(RowOf(After(SHIPPED, run).rows, 1))
  {
    var open := SetStatus(1, PrOpen, Some(url));
    OneApproving();
    var read := After(SHIPPED, READ_TO_APPROVE);
    RowChanges(READ_TO_APPROVE, read, HUNCH_ROW, open);
    var stamped := HUNCH_ROW.(status := PrOpen, prUrl := Some(url));
    RowIsHandedOut(READ_TO_APPROVE + [open], read.(rows := [stamped]), stamped, ApproveWrites(1), "a");
  }

  const LEASED: seq<Step> := HELD + [HandOff(1)]

  lemma OneLeaseRead()
    ensures Disciplined(SHIPPED, LEASED + [SelectStale(1801)])
    ensures After(SHIPPED, LEASED + [SelectStale(1801)]) == State(SHIPPED, [HELD_ROW], {}, {}, multiset{}, {1})
  {
    OneHeld();
    RunOf(HELD, HandOff(1));
    OnlyRowAfter(After(SHIPPED, HELD), HELD_ROW, HandOff(1));
    assert After(SHIPPED, LEASED) == State(SHIPPED, [HELD_ROW], {}, {}, multiset{}, {});
    RunOf(LEASED, SelectStale(1801));
    assert Effect(SHIPPED, [HELD_ROW], SelectStale(1801)) == [HELD_ROW];
    assert StaleAt([HELD_ROW], 1, 1);
    assert Stale([HELD_ROW], 1) == {1};
  }

  /** A deep report enqueues a row that the gate lets in, then opens a pull request of its own and
      stamps it on the row, which is claimed all the same. */
  lemma StampedRowHandedOut(url: string)
    requires url != ""
    ensures var run := [PATCH] + [MergePayload(1, Some(url))];
            && Disciplined(SHIPPED, run)
            && Allowed(After(SHIPPED, run), Claim(1, "a", {}, 2))
            && HasPr(RowOf(After(SHIPPED, run).rows, 1))
  {
    OneRow(PATCH, PATCH_ROW);
    RowIsHandedOut([PATCH], After(SHIPPED, [PATCH]), PATCH_ROW, MergePayload(1, Some(url)), "a");
  }

  /** The Job reports its pull request just before the reaper fails the lease that it has read:
      the row is claimed again. */
  lemma ReapedRowWithPr(url: string)
    requires url != ""
    ensures var run := LEASED + [SelectStale(1801)] + [SetStatus(1, PrOpen, Some(url))] + [ReaperFail(1)];
            && Disciplined(SHIPPED, run)
            && Allowed(After(SHIPPED, run), Claim(1, "b", {}, 2))
            && HasPr(RowOf(After(SHIPPED, run).rows, 1))
  {
    var read, open := LEASED + [SelectStale(1801)], SetStatus(1, PrOpen, Some(url));
    OneLeaseRead();
    RowChanges(read, After(SHIPPED, read), HELD_ROW, open);
    var stamped := HELD_ROW.(status := PrOpen, prUrl := Some(url));
    RowIsHandedOut(read + [open], After(SHIPPED, read).(rows := [stamped]), stamped, ReaperFail(1), "b");
  }

  const REGATE := Reclassify(1, Override(None, None, Some(Number(0.9))))

  /** An operator reclassifies a parked row that has a pull request, and the gate lets it in. */
  lemma ReclassifiedRowWithPr(url: string)
    requires url != ""
    ensures var run := [HUNCH] + [MergePayload(1, Some(url))] + [REGATE];
            && Disciplined(SHIPPED, run)
            && Allowed(After(SHIPPED, run), Claim(1, "a", {}, 2))
            && HasPr(RowOf(After(SHIPPED, run).rows, 1))
  {
    var stamp := MergePayload(1, Some(url));
    OneRow(HUNCH, HUNCH_ROW);
    var parked := After(SHIPPED, [HUNCH]);
    RowChanges([HUNCH], parked, HUNCH_ROW, stamp);
    var stamped := HUNCH_ROW.(prUrl := Some(url));
    assert ReclassifiedRow(SHIPPED, stamped, REGATE.override) == PATCH_ROW.(prUrl := Some(url));
    RowIsHandedOut([HUNCH] + [stamp], parked.(rows := [stamped]), stamped, REGATE, "a");
  }

  // ---- rows with a pull request ---------------------------------------------------------

  predicate KeepsPrs(run: seq<Step>, id: nat) {
    forall i :: 0 <= i < |run| ==> KeepsPr(run[i], id)
  }

  lemma PrKept(s: State, step: Step, id: nat)
    requires Exists(s.rows, id) && HasPr(RowOf(s.rows, id)) && KeepsPr(step, id)
    ensures Exists(Next(s, step).rows, id) && HasPr(RowOf(Next(s, step).rows, id))
  {
    EffectAt(s.policy, s.rows, step, id);
  }

  lemma PrGained(s: State, step: Step, id: nat)
    requires GainsPrInHand(s, step, id)
    ensures Exists(Next(s, step).rows, id) && HasPr(RowOf(Next(s, step).rows, id))
  {
    EffectAt(s.policy, s.rows, step, id);
  }

  lemma {:induction false} GainedPrStays(policy: Policy, run: seq<Step>, id: nat)
    requires KeepsPrs(run, id) && GainedPrInHand(policy, run, id)
    ensures Exists(After(policy, run).rows, id) && HasPr(RowOf(After(policy, run).rows, id))
    decreases |run|
  {
    var before, step := run[..|run| - 1], run[|run| - 1];
    assert forall i :: 0 <= i < |before| ==> before[i] == run[i];
    if GainedPrInHand(policy, before, id) {
      GainedPrStays(policy, before, id);
      PrKept(After(policy, before), step, id);
    } else {
      PrGained(After(policy, before), step, id);
    }
  }

  /** An Approve writes a row that has a pull request if and only if the row got it while an
      Approve was between its read and its write; only if, even when a URL may be emptied. */
  lemma ApprovedWithPr(policy: Policy, run: seq<Step>, id: nat)
    requires Live(policy) && Disciplined(policy, run)
    requires Exists(After(policy, run).rows, id) && Allowed(After(policy, run), ApproveWrites(id))
    ensures HasPr(RowOf(After(policy, run).rows, id)) ==> GainedPrInHand(policy, run, id)
    ensures KeepsPrs(run, id) ==> (HasPr(RowOf(After(policy, run).rows, id)) <==> GainedPrInHand(policy, run, id))
  {
    RunKeepsRow(policy, run, id);
    if KeepsPrs(run, id) && GainedPrInHand(policy, run, id) {
      GainedPrStays(policy, run, id);
    }
  }

  predicate WritesApproval(step: Step, id: nat) {
    step.ApproveWrites? && step.id == id
  }

  predicate PrSettled(s: State, id: nat) {
    Exists(s.rows, id) && HasPr(RowOf(s.rows, id)) && id !in s.approving
  }

  lemma PrSettledStep(s: State, step: Step, id: nat)
    requires PrSettled(s, id) && Allowed(s, step) && KeepsPr(step, id)
    ensures PrSettled(Next(s, step), id) && !WritesApproval(step, id)
  {
    EffectAt(s.policy, s.rows, step, id);
  }

  lemma {:induction false} PrStaysSettled(s: State, more: seq<Step>, id: nat)
    requires PrSettled(s, id) && AllowedFrom(s, more) && KeepsPrs(more, id)
    ensures PrSettled(AfterFrom(s, more), id)
    decreases |more|
  {
    if more != [] {
      var before := more[..|more| - 1];
      assert forall k :: 0 <= k < |before| ==> before[k] == more[k];
      PrStaysSettled(s, before, id);
      PrSettledStep(AfterFrom(s, before), more[|more| - 1], id);
    }
  }

  lemma {:induction false} AllowedPrefix(s: State, more: seq<Step>, k: nat)
    requires AllowedFrom(s, more) && k <= |more|
    ensures AllowedFrom(s, more[..k])
    decreases |more|
  {
    if k == |more| {
      assert more[..k] == more;
    } else {
      assert more[..|more| - 1][..k] == more[..k];
      AllowedPrefix(s, more[..|more| - 1], k);
    }
  }

  /** Once a row has a pull request and no Approve has it in hand, then over every continuation it
      has one, no Approve gets it in hand again, and none writes it. What else can hand it out is
      in `PrHandedOutExactly`. */
  lemma PrIsNeverApproved(s: State, more: seq<Step>, id: nat)
    requires PrSettled(s, id) && AllowedFrom(s, more) && KeepsPrs(more, id)
    ensures PrSettled(AfterFrom(s, more), id)
    ensures forall k :: 0 <= k < |more| ==> !WritesApproval(more[k], id)
  {
    PrStaysSettled(s, more, id);
    forall k | 0 <= k < |more|
      ensures !WritesApproval(more[k], id)
    {
      NotApprovedAt(s, more, k, id, more[..k]);
    }
  }

  lemma NotApprovedAt(s: State, more: seq<Step>, k: nat, id: nat, before: seq<Step>)
    requires PrSettled(s, id) && AllowedFrom(s, more) && KeepsPrs(more, id) && k < |more| && before == more[..k]
    ensures !WritesApproval(more[k], id)
  {
    AllowedPrefix(s, more, k);
    AllowedPrefix(s, more, k + 1);
    assert more[..k + 1][..k] == before;
    PrStaysSettled(s, before, id);
    PrSettledStep(AfterFrom(s, before), more[k], id);
  }

  // ---- leases -------------------------------------------------------------------------

  /** The row is in flight and no reaper, however late it looks, sees it. */
  ghost predicate Unseen(s: State, id: nat) {
    && Exists(s.rows, id) && InFlight(RowOf(s.rows, id).status)
    && forall cutoff :: !StaleAt(s.rows, cutoff, id)
  }

  /** Now and at every step before, some reaper would see the row if it is in flight. */
  ghost predicate AlwaysSeen(policy: Policy, run: seq<Step>, id: nat) {
    !Unseen(After(policy, run), id) && (run == [] || AlwaysSeen(policy, run[..|run| - 1], id))
  }

  lemma UnseenExactly(s: State, id: nat)
    ensures Unseen(s, id) <==>
              Exists(s.rows, id) && InFlight(RowOf(s.rows, id).status) && RowOf(s.rows, id).claimedAt.None?
  {
    if Exists(s.rows, id) && InFlight(RowOf(s.rows, id).status) && RowOf(s.rows, id).claimedAt.Some? {
      assert StaleAt(s.rows, RowOf(s.rows, id).claimedAt.value + 1, id);
    }
  }

  /** Over every run a late enough reaper always sees the row when it is in flight, if and only if
      no change record was ever persisted onto it after its lease was lost; and as long as that
      is so, a row in flight carries its Job's name as well as its lease time. */
  lemma {:induction false} LeasesAreVisible(policy: Policy, run: seq<Step>, id: nat)
    requires Live(policy) && Disciplined(policy, run)
    ensures AlwaysSeen(policy, run, id) <==> !PersistedUnleased(policy, run, id)
    ensures !PersistedUnleased(policy, run, id) && Exists(After(policy, run).rows, id)
            && InFlight(RowOf(After(policy, run).rows, id).status) ==>
              RowOf(After(policy, run).rows, id).job.Some? && RowOf(After(policy, run).rows, id).claimedAt.Some?
    decreases |run|
  {
    RunKeepsRow(policy, run, id);
    UnseenExactly(After(policy, run), id);
    if run != [] {
      var before, step := run[..|run| - 1], run[|run| - 1];
      LeasesAreVisible(policy, before, id);
      if PersistsUnleased(After(policy, before), step, id) {
        EffectAt(After(policy, before).policy, After(policy, before).rows, step, id);
      }
    }
  }

  /** The exception exists: the reaper takes the lease back while the drainer waits for the
      approval of a change record, and the drainer then writes `claimed` over it; no cutoff makes
      the row stale. */
  lemma LeaseLostUnderDrainer(cutoff: int)
    ensures var run := HELD + [SelectStale(1801)] + [ReaperFail(1)] + [Persist(1)];
            && Disciplined(SHIPPED, run)
            && Exists(After(SHIPPED, run).rows, 1)
            && RowOf(After(SHIPPED, run).rows, 1).status.Claimed?
            && !StaleAt(After(SHIPPED, run).rows, cutoff, 1)
  {
    var read, fail, persist := HELD + [SelectStale(1801)], ReaperFail(1), Persist(1);
    OneHeldRead();
    RunOf(read, fail);
    OnlyRowAfter(After(SHIPPED, read), HELD_ROW, fail);
    var failed := FailedRow(SHIPPED, HELD_ROW);
    assert After(SHIPPED, read + [fail]) == State(SHIPPED, [failed], {1}, {}, multiset{}, {});
    RunOf(read + [fail], persist);
    OnlyRowAfter(After(SHIPPED, read + [fail]), failed, persist);
  }

  function Attempts(rows: Table): nat {
    if rows == [] then 0 else Attempts(rows[..|rows| - 1]) + rows[|rows| - 1].attempts
  }

  lemma StaleSplit(rows: Table, cutoff: int)
    requires rows != []
    ensures |Stale(rows, cutoff)|
         == |Stale(rows[..|rows| - 1], cutoff)| + (if Expired(rows[|rows| - 1], cutoff) then 1 else 0)
  {
    var n, before := |rows|, rows[..|rows| - 1];
    forall id: nat
      ensures StaleAt(rows, cutoff, id) <==> StaleAt(before, cutoff, id) || (id == n && Expired(rows[n - 1], cutoff))
    {
    }
    if Expired(rows[n - 1], cutoff) {
      assert Stale(rows, cutoff) == Stale(before, cutoff) + {n};
    } else {
      assert Stale(rows, cutoff) == Stale(before, cutoff);
    }
  }

  lemma {:induction false} ReapAttempts(policy: Policy, rows: Table, cutoff: int)
    ensures Attempts(Reaped(policy, rows, cutoff)) == Attempts(rows) + |Stale(rows, cutoff)|
    decreases |rows|
  {
    if rows == [] {
      assert Stale(rows, cutoff) == {};
    } else {
      var before := rows[..|rows| - 1];
      ReapAttempts(policy, before, cutoff);
      assert Reaped(policy, rows, cutoff)[..|rows| - 1] == Reaped(policy, before, cutoff);
      StaleSplit(rows, cutoff);
    }
  }

  /** A reap leaves every unexpired row alone, leaves no expired lease behind, and costs the
      table one attempt for each lease that had expired. */
  lemma ReapCostsOneAttemptEach(policy: Policy, rows: Table, cutoff: int)
    ensures forall id: nat :: Exists(rows, id) && !StaleAt(rows, cutoff, id) ==>
              RowOf(Reaped(policy, rows, cutoff), id) == RowOf(rows, id)
    ensures forall id: nat :: !StaleAt(Reaped(policy, rows, cutoff), cutoff, id)
    ensures Attempts(Reaped(policy, rows, cutoff)) == Attempts(rows) + |Stale(rows, cutoff)|
  {
    ReapAttempts(policy, rows, cutoff);
  }

  // ---- the retry bound ----------------------------------------------------------------

  predicate Fails(step: Step, id: nat) {
    (step.DrainerFail? || step.ReaperFail?) && step.id == id
  }

  predicate Requeued(s: State, step: Step, id: nat) {
    Fails(step, id) && Exists(s.rows, id) && FailedRow(s.policy, RowOf(s.rows, id)).status.Queued?
  }

  /** How often `fail_remediation` has answered `queued` for the row. */
  function Requeues(policy: Policy, run: seq<Step>, id: nat): nat {
    if run == [] then 0
    else Requeues(policy, run[..|run| - 1], id)
         + (if Requeued(After(policy, run[..|run| - 1]), run[|run| - 1], id) then 1 else 0)
  }

  /** No policy put in force allows more than `cap` attempts. */
  predicate Capped(policy: Policy, run: seq<Step>, cap: int) {
    policy.maxAttempts <= cap && forall i :: 0 <= i < |run| && run[i].Reload? ==> run[i].policy.maxAttempts <= cap
  }

  predicate Counted(s: State, id: nat, cap: int, count: nat) {
    && s.policy.maxAttempts <= cap && count <= cap - 1
    && (if Exists(s.rows, id) then count <= RowOf(s.rows, id).attempts else count == 0)
  }

  lemma StepKeepsCount(s: State, step: Step, id: nat, cap: int, count: nat)
    requires Counted(s, id, cap, count) && (step.Reload? ==> step.policy.maxAttempts <= cap)
    ensures Counted(Next(s, step), id, cap, count + if Requeued(s, step, id) then 1 else 0)
  {
    EffectAt(s.policy, s.rows, step, id);
  }

  /** Whatever the callers do, in any order, and however the policy changes under `cap`, a row is
      sent back to the queue by a failure at most `cap - 1` times. */
  lemma {:induction false} RetriesAreBounded(policy: Policy, run: seq<Step>, id: nat, cap: int)
    requires 1 <= cap && Capped(policy, run, cap)
    ensures Requeues(policy, run, id) <= cap - 1
    ensures Counted(After(policy, run), id, cap, Requeues(policy, run, id))
    decreases |run|
  {
    if run != [] {
      var before := run[..|run| - 1];
      assert forall i :: 0 <= i < |before| ==> before[i] == run[i];
      RetriesAreBounded(policy, before, id, cap);
      StepKeepsCount(After(policy, before), run[|run| - 1], id, cap, Requeues(policy, before, id));
    }
  }

  function Claims(run: seq<Step>, id: nat): nat {
    if run == [] then 0
    else Claims(run[..|run| - 1], id) + (if run[|run| - 1].Claim? && run[|run| - 1].id == id then 1 else 0)
  }

  predicate Lets(step: Step, id: nat) {
    (step.Release? || step.ApproveWrites? || step.Reclassify?) && step.id == id
  }

  /** No one releases, approves or reclassifies the row. */
  predicate LeftAlone(run: seq<Step>, id: nat) {
    forall i :: 0 <= i < |run| ==> !Lets(run[i], id)
  }

  predicate ClaimsPaid(s: State, id: nat, claims: nat, requeues: nat) {
    if !Exists(s.rows, id) then claims == 0
    else claims + (if RowOf(s.rows, id).status.Queued? then 1 else 0) <= 1 + requeues
  }

  lemma StepKeepsPaid(s: State, step: Step, id: nat, claims: nat, requeues: nat)
    requires Allowed(s, step) && !Lets(step, id) && ClaimsPaid(s, id, claims, requeues)
    ensures ClaimsPaid(Next(s, step), id, claims + (if step.Claim? && step.id == id then 1 else 0),
                       requeues + (if Requeued(s, step, id) then 1 else 0))
  {
    EffectAt(s.policy, s.rows, step, id);
  }

  lemma {:induction false} ClaimsFollowRequeues(policy: Policy, run: seq<Step>, id: nat)
    requires Disciplined(policy, run) && LeftAlone(run, id)
    ensures ClaimsPaid(After(policy, run), id, Claims(run, id), Requeues(policy, run, id))
    decreases |run|
  {
    if run != [] {
      var before := run[..|run| - 1];
      assert forall i :: 0 <= i < |before| ==> before[i] == run[i];
      ClaimsFollowRequeues(policy, before, id);
      StepKeepsPaid(After(policy, before), run[|run| - 1], id, Claims(before, id), Requeues(policy, before, id));
    }
  }

  /** Left alone, a row is handed to the executor at most as often as the highest attempt cap. */
  lemma ClaimsAreBounded(policy: Policy, run: seq<Step>, id: nat, cap: int)
    requires Disciplined(policy, run) && LeftAlone(run, id) && 1 <= cap && Capped(policy, run, cap)
    ensures Claims(run, id) <= cap
  {
    ClaimsFollowRequeues(policy, run, id);
    RetriesAreBounded(policy, run, id, cap);
  }

  // ---- confirmed commands ---------------------------------------------------------------

  /** An operator's grant: the write of an Approve, or a Reclassify through the gate. */
  predicate OperatorGrants(s: State, step: Step, id: nat) {
    (step.ApproveWrites? || step.Reclassify?) && Grants(s, step, id)
  }

  predicate GrantedByOperator(policy: Policy, run: seq<Step>, id: nat) {
    run != [] && (GrantedByOperator(policy, run[..|run| - 1], id)
                  || OperatorGrants(After(policy, run[..|run| - 1]), run[|run| - 1], id))
  }

  lemma GrantOfConfirmed(s: State, step: Step, id: nat)
    requires Allowed(s, step) && Grants(s, step, id) && !OperatorGrants(s, step, id)
    ensures Exists(Next(s, step).rows, id) && !Confirmed(RowOf(Next(s, step).rows, id))
  {
    EffectAt(s.policy, s.rows, step, id);
  }

  lemma {:induction false} GrantedIsNotConfirmed(policy: Policy, run: seq<Step>, id: nat)
    requires Disciplined(policy, run) && Granted(policy, run, id) && !GrantedByOperator(policy, run, id)
    ensures Exists(After(policy, run).rows, id) && !Confirmed(RowOf(After(policy, run).rows, id))
    decreases |run|
  {
    var before, step := run[..|run| - 1], run[|run| - 1];
    if Granted(policy, before, id) {
      GrantedIsNotConfirmed(policy, before, id);
      EffectAt(After(policy, before).policy, After(policy, before).rows, step, id);
    } else {
      GrantOfConfirmed(After(policy, before), step, id);
    }
  }

  lemma {:induction false} OperatorGrantIsGrant(policy: Policy, run: seq<Step>, id: nat)
    ensures GrantedByOperator(policy, run, id) ==> Granted(policy, run, id)
    decreases |run|
  {
    if run != [] {
      OperatorGrantIsGrant(policy, run[..|run| - 1], id);
    }
  }

  /** A confirmed command was ever in the queue if and only if an operator's Approve, or a
      Reclassify through the gate, put it there; until then, in any run of claims, releases,
      failures, reaps, completions, tracker and node-recovery steps, it is not in the drainer's
      hands and no claim is handed it. */
  lemma ConfirmedIsNeverDrained(policy: Policy, run: seq<Step>, id: nat)
    requires Live(policy) && Disciplined(policy, run)
    requires Exists(After(policy, run).rows, id) && Confirmed(RowOf(After(policy, run).rows, id))
    ensures EverQueued(policy, run, id) <==> GrantedByOperator(policy, run, id)
    ensures !GrantedByOperator(policy, run, id) ==>
              id !in After(policy, run).held && !HandsOut(After(policy, run), id)
  {
    RunKeepsRow(policy, run, id);
    QueuedExactlyIfGranted(policy, run, id);
    OperatorGrantIsGrant(policy, run, id);
    HandsOutQueued(After(policy, run), id);
    if Granted(policy, run, id) && !GrantedByOperator(policy, run, id) {
      GrantedIsNotConfirmed(policy, run, id);
    }
  }
}
