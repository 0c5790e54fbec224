/** The remediation queue as the program holds it (agent/knowledge_base.py). Each operation is
    proved to be the step of its name, so what is proved about runs of steps holds of it. */
module RemediationQueue {
  import opened Wrappers
  import opened Remediation
  import opened RemediationPolicy
  import opened RemediationTable
  import opened Floats
  import opened Text
  import Dedupe

  /** What no operation here changes about a row. */
  predicate SameBut(row: Row, was: Row) {
    row.payload == was.payload && row.priority == was.priority && row.createdAt == was.createdAt
  }

  predicate SameKind(row: Row, was: Row) {
    row.cls == was.cls && row.risk == was.risk && row.confidence == was.confidence
  }

  predicate SameLease(row: Row, was: Row) {
    row.job == was.job && row.claimedAt == was.claimedAt
  }

  function Known(name: string, names: seq<string>, default_: string): string {
    if name in names then name else default_
  }

  /** The rows whose lease was taken longer ago than the timeout have one more attempt and are
      queued again without a lease, or given up; every other row is as it was. */
  ghost predicate OnlyExpiredFail(policy: Policy, before: Table, after: Table, now: int) {
    && |after| == |before|
    && forall i :: 0 <= i < |before| ==>
         var was, row := before[i], after[i];
         if was.status in {Claimed, Executing} && was.claimedAt.Some? && was.claimedAt.value + policy.leaseTimeout < now
         then && row.attempts == was.attempts + 1 && row.payload == was.payload
              && row.status == (if was.payload.source == CONFIRMED_SOURCE then Failed
                                else if was.attempts + 1 >= policy.maxAttempts then NeedsHuman else Queued)
              && (row.status == Queued ==> row.job == None && row.claimedAt == None)
         else row == was
  }

  lemma ReapedRows(policy: Policy, rows: Table, now: int)
    ensures OnlyExpiredFail(policy, rows, Reaped(policy, rows, now - policy.leaseTimeout), now)
  {
  }

  class Queue {
    var policy: Policy
    var rows: Table

    constructor (policy: Policy)
      ensures this.policy == policy && rows == []
    {
      this.policy := policy;
      rows := [];
    }

    /** `apply_remediation_policy`; a configuration that cannot be resolved raises and leaves the
        policy as it was. */
    method ApplyPolicy(config: Config) returns (raised: bool)
      modifies this`policy
      ensures raised == ResolveAutoPolicy(config).None?
      ensures policy == if raised then old(policy) else ResolveAutoPolicy(config).value
      ensures !raised ==> TakenFrom(config.leaseTimeout, policy.leaseTimeout, 1800)
                          && TakenFrom(config.maxAttempts, policy.maxAttempts, 3)
                          && FractionFrom(config.minConfidence, policy.minConfidence, 0.8)
                          && FractionFrom(config.confidenceCap, policy.confidenceCap, 0.5)
      ensures old(Live(policy)) ==> Live(policy)
    {
      PolicyIsSafe(config);
      if !config.leaseTimeout.InfiniteInt? && !config.maxAttempts.InfiniteInt? {
        PolicyExactly(config, "");
      }
      var resolved := ResolveAutoPolicy(config);
      if resolved.None? {
        return true;
      }
      policy := resolved.value;
      return false;
    }

    /** `queue_remediation`; None is a repeat the backstop suppressed. */
    method QueueRemediation(cls: string, payload: Payload, risk: string, confidence: Option<Floating>,
                            priority: int, dedupeKey: string, prUrl: Option<string>, now: int)
      returns (id: Option<nat>)
      modifies this`rows
      ensures id.None? <==> dedupeKey != "" && KeyTaken(old(rows), dedupeKey)
      ensures id.None? ==> rows == old(rows)
      ensures id.Some? ==> && rows == old(rows) + [NewRow(policy, cls, risk, confidence, priority, payload, prUrl, now)]
                           && id.value == |rows|
      ensures id.None? <==> dedupeKey != "" && exists n: nat :: Exists(old(rows), n) && RowOf(old(rows), n).payload.dedupeKey == dedupeKey
                                                     && RowOf(old(rows), n).status !in {Resolved, Rejected}
      ensures id.Some? ==>
                var row := rows[|rows| - 1];
                && row.cls == (if cls in CLASSES then cls else "manual") && row.risk == (if risk in RISKS then risk else "high")
                && row.confidence == confidence && row.priority == priority && row.payload == payload
                && row.attempts == 0 && row.job == None && row.claimedAt == None && row.createdAt == now
                && row.prUrl == (if prUrl.Some? && Strip(prUrl.value) != "" then Some(Strip(prUrl.value)) else None)
                && (row.status == PrOpen <==> row.prUrl.Some?)
                && (row.status == Queued <==> row.prUrl.None? && AutoEligible(policy, row.cls, row.risk, confidence))
                && row.status in {PrOpen, Queued, NeedsHuman}
      ensures rows == Effect(policy, old(rows), Enqueue(cls, payload, risk, confidence, priority, dedupeKey, prUrl, now))
    {
      if dedupeKey != "" {
        for i := 0 to |rows|
          invariant forall n: nat :: 1 <= n <= i ==> !(!Terminal(RowOf(rows, n).status) && RowOf(rows, n).payload.dedupeKey == dedupeKey)
          invariant rows == old(rows)
        {
          if !Terminal(rows[i].status) && rows[i].payload.dedupeKey == dedupeKey {
            assert RowOf(rows, i + 1).payload.dedupeKey == dedupeKey;
            EffectOnOne(policy, rows, Enqueue(cls, payload, risk, confidence, priority, dedupeKey, prUrl, now), 0);
            return None;
          }
        }
      }
      rows := rows + [NewRow(policy, cls, risk, confidence, priority, payload, prUrl, now)];
      return Some(|rows|);
    }

    /** `queue_confirmed_host_command`; None is the refusal of a payload with another source. */
    method QueueConfirmedHostCommand(payload: Payload, job: string, now: int) returns (id: Option<nat>)
      modifies this`rows
      ensures id.None? <==> payload.source != CONFIRMED_SOURCE
      ensures id.None? ==> rows == old(rows)
      ensures id.Some? ==> rows == old(rows) + [ConfirmedRow(payload, job, now)] && id.value == |rows|
      ensures id.Some? ==>
                var row := rows[|rows| - 1];
                && row.status == Claimed && row.job == Some(job) && row.claimedAt == Some(now) && row.payload == payload
                && row.cls == "node-action" && row.risk == "high" && row.confidence == None && row.prUrl == None
                && row.attempts == 0 && row.priority == 1 && row.createdAt == now
      ensures rows == Effect(policy, old(rows), EnqueueConfirmed(payload, job, now))
    {
      if payload.source != CONFIRMED_SOURCE {
        EffectOnOne(policy, rows, EnqueueConfirmed(payload, job, now), 0);
        return None;
      }
      rows := rows + [ConfirmedRow(payload, job, now)];
      return Some(|rows|);
    }

    /** `claim_next_remediation` */
    method ClaimNext(job: string, exclude: set<nat>, now: int) returns (id: Option<nat>)
      modifies this`rows
      ensures id.None? ==> rows == old(rows) && forall n: nat :: !Claimable(rows, exclude, n)
      ensures id.Some? ==> && IsNext(old(rows), exclude, id.value)
                           && rows == With(old(rows), id.value, ClaimedRow(RowOf(old(rows), id.value), job, now))
                           && rows == Effect(policy, old(rows), Claim(id.value, job, exclude, now))
      ensures id.Some? ==>
                var was, row := old(rows)[id.value - 1], rows[id.value - 1];
                && was.status == Queued && id.value !in exclude
                && row.status == Claimed && row.job == Some(job) && row.claimedAt == Some(now)
                && SameBut(row, was) && row.attempts == was.attempts && row.prUrl == was.prUrl && SameKind(row, was)
                && forall n: nat :: Exists(old(rows), n) && n !in exclude && RowOf(old(rows), n).status == Queued ==>
                     var other := RowOf(old(rows), n);
                     was.priority < other.priority || (was.priority == other.priority && was.createdAt <= other.createdAt)
    {
      id := None;
      for i := 0 to |rows|
        invariant rows == old(rows)
        invariant id.None? ==> forall n: nat :: 1 <= n <= i ==> !Claimable(rows, exclude, n)
        invariant id.Some? ==> && Claimable(rows, exclude, id.value)
                               && forall n: nat :: 1 <= n <= i && Claimable(rows, exclude, n) ==>
                                    NotAfter(RowOf(rows, id.value), RowOf(rows, n))
      {
        if Claimable(rows, exclude, i + 1)
           && (id.None? || !NotAfter(RowOf(rows, id.value), RowOf(rows, i + 1))) {
          id := Some(i + 1);
        }
      }
      if id.Some? {
        EffectOnOne(policy, rows, Claim(id.value, job, exclude, now), id.value);
        rows := With(rows, id.value, ClaimedRow(RowOf(rows, id.value), job, now));
      }
    }

    /** `update_remediation_status` */
    method UpdateStatus(id: nat, status: Status, prUrl: Option<string>) returns (found: bool)
      modifies this`rows
      ensures found == Exists(old(rows), id)
      ensures rows == if found then With(old(rows), id, UpdatedRow(RowOf(old(rows), id), status, prUrl)) else old(rows)
      ensures rows == Effect(policy, old(rows), SetStatus(id, status, prUrl))
      ensures found ==>
                var was, row := old(rows)[id - 1], rows[id - 1];
                && row.status == status && (prUrl.Some? ==> row.prUrl == prUrl) && (prUrl.None? ==> row.prUrl == was.prUrl)
                && SameBut(row, was) && SameKind(row, was) && SameLease(row, was) && row.attempts == was.attempts
      ensures status.Claimed? && prUrl.None? ==> rows == Effect(policy, old(rows), Persist(id))
      ensures status.Queued? && prUrl.None? ==> rows == Effect(policy, old(rows), ApproveWrites(id))
    {
      EffectOnOne(policy, rows, SetStatus(id, status, prUrl), id);
      EffectOnOne(policy, rows, Persist(id), id);
      EffectOnOne(policy, rows, ApproveWrites(id), id);
      found := Exists(rows, id);
      if found {
        rows := With(rows, id, UpdatedRow(RowOf(rows, id), status, prUrl));
      }
    }

    /** `release_remediation_claim` */
    method ReleaseClaim(id: nat) returns (found: bool)
      modifies this`rows
      ensures found == Exists(old(rows), id)
      ensures rows == if found then With(old(rows), id, ReleasedRow(RowOf(old(rows), id))) else old(rows)
      ensures found ==>
                var was, row := old(rows)[id - 1], rows[id - 1];
                && row.status == Queued && row.job == None && row.claimedAt == None
                && SameBut(row, was) && SameKind(row, was) && row.attempts == was.attempts && row.prUrl == was.prUrl
      ensures rows == Effect(policy, old(rows), Release(id))
    {
      EffectOnOne(policy, rows, Release(id), id);
      found := Exists(rows, id);
      if found {
        rows := With(rows, id, ReleasedRow(RowOf(rows, id)));
      }
    }

    /** `fail_remediation`; None is an unknown id. */
    method Fail(id: nat) returns (status: Option<Status>)
      modifies this`rows
      ensures status.Some? == Exists(old(rows), id)
      ensures status.None? ==> rows == old(rows)
      ensures status.Some? ==>
                && rows == With(old(rows), id, FailedRow(policy, RowOf(old(rows), id)))
                && status.value == RowOf(rows, id).status
      ensures status.Some? ==>
                var was, row := old(rows)[id - 1], rows[id - 1];
                && row.attempts == was.attempts + 1
                && row.status == (if was.payload.source == CONFIRMED_SOURCE then Failed
                                  else if was.attempts + 1 >= policy.maxAttempts then NeedsHuman else Queued)
                && (row.status == Queued ==> row.job == None && row.claimedAt == None)
                && (row.status != Queued ==> SameLease(row, was))
                && SameBut(row, was) && SameKind(row, was) && row.prUrl == was.prUrl
      ensures rows == Effect(policy, old(rows), DrainerFail(id)) == Effect(policy, old(rows), ReaperFail(id))
    {
      EffectOnOne(policy, rows, DrainerFail(id), id);
      EffectOnOne(policy, rows, ReaperFail(id), id);
      if !Exists(rows, id) {
        return None;
      }
      rows := With(rows, id, FailedRow(policy, RowOf(rows, id)));
      return Some(RowOf(rows, id).status);
    }

    /** The reaper's read: the ids of the expired leases, in order. */
    method ExpiredLeases(cutoff: int) returns (stale: seq<nat>)
      ensures forall k, l :: 0 <= k < l < |stale| ==> stale[k] < stale[l]
      ensures forall k :: 0 <= k < |stale| ==> stale[k] >= 1
      ensures forall n: nat :: n in stale <==> StaleAt(rows, cutoff, n)
    {
      stale := [];
      for i := 0 to |rows|
        invariant forall k, l :: 0 <= k < l < |stale| ==> stale[k] < stale[l]
        invariant forall k :: 0 <= k < |stale| ==> 1 <= stale[k] <= i
        invariant forall n: nat :: n in stale <==> 1 <= n <= i && StaleAt(rows, cutoff, n)
      {
        if Expired(rows[i], cutoff) {
          stale := stale + [i + 1];
        }
      }
    }

    /** `requeue_stale_remediations`: one read for the expired leases, then one failure each.
        Uninterrupted, the reaper fails exactly the rows whose lease had expired, once each. */
    method RequeueStale(now: int) returns (count: nat)
      modifies this`rows
      ensures rows == Reaped(policy, old(rows), now - policy.leaseTimeout)
      ensures count == |Stale(old(rows), now - policy.leaseTimeout)|
      ensures OnlyExpiredFail(policy, old(rows), rows, now)
    {
      var cutoff := now - policy.leaseTimeout;
      var stale := ExpiredLeases(cutoff);
      ghost var before := rows;
      for i := 0 to |stale|
        invariant rows == AfterFails(policy, before, stale[..i])
      {
        var _ := Fail(stale[i]);
        assert stale[..i + 1][..i] == stale[..i];
      }
      assert stale[..|stale|] == stale;
      FailsAreReap(policy, before, cutoff, stale);
      ReapedRows(policy, before, now);
      AscendingCount(stale);
      assert Stale(before, cutoff) == Members(stale);
      count := |stale|;
    }

    /** `reclassify_remediation` */
    method Reclassify(id: nat, o: Override) returns (row: Option<Row>)
      modifies this`rows
      ensures row.Some? == Exists(old(rows), id)
      ensures row.None? ==> rows == old(rows)
      ensures row.Some? ==> && rows == With(old(rows), id, ReclassifiedRow(policy, RowOf(old(rows), id), o))
                            && row.value == RowOf(rows, id)
      ensures row.Some? ==>
                var was := old(rows)[id - 1];
                && row.value.cls == Known(if o.cls.Some? then o.cls.value else was.cls, CLASSES, "manual")
                && row.value.risk == Known(if o.risk.Some? then o.risk.value else was.risk, RISKS, "high")
                && row.value.confidence == (if o.confidence.Some? then o.confidence else was.confidence)
                && row.value.status == (if was.status !in {Queued, NeedsHuman, Failed} then was.status
                                        else if AutoEligible(policy, row.value.cls, row.value.risk, row.value.confidence)
                                        then Queued else NeedsHuman)
                && SameBut(row.value, was) && SameLease(row.value, was)
                && row.value.attempts == was.attempts && row.value.prUrl == was.prUrl
      ensures rows == Effect(policy, old(rows), RemediationTable.Step.Reclassify(id, o))
    {
      EffectOnOne(policy, rows, RemediationTable.Step.Reclassify(id, o), id);
      if !Exists(rows, id) {
        return None;
      }
      rows := With(rows, id, ReclassifiedRow(policy, RowOf(rows, id), o));
      return Some(RowOf(rows, id));
    }

    /** The read half of the console's Approve: 404 for an unknown row, 409 on a conflict, else
        200, and the write goes ahead. */
    method CheckApprove(id: nat) returns (code: int)
      ensures code == if !Exists(rows, id) then 404 else if ApproveConflict(RowOf(rows, id)) then 409 else 200
    {
      if !Exists(rows, id) {
        return 404;
      }
      return if ApproveConflict(RowOf(rows, id)) then 409 else 200;
    }

    /** Both halves, when nothing comes between: the row goes to the executor. */
    method Approve(id: nat) returns (code: int)
      modifies this`rows
      ensures code == if !Exists(old(rows), id) then 404 else if ApproveConflict(RowOf(old(rows), id)) then 409 else 200
      ensures rows == if code == 200 then Effect(policy, old(rows), ApproveWrites(id)) else old(rows)
      ensures code in {200, 404, 409} && (code == 404 <==> !Exists(old(rows), id))
      ensures code == 409 <==> Exists(old(rows), id) && (old(rows)[id - 1].cls == "manual"
                                                         || old(rows)[id - 1].prUrl !in {None, Some("")})
      ensures code == 200 ==>
                var was, row := old(rows)[id - 1], rows[id - 1];
                && row.status == Queued && SameBut(row, was) && SameKind(row, was) && SameLease(row, was)
                && row.attempts == was.attempts && row.prUrl == was.prUrl
    {
      code := CheckApprove(id);
      if code == 200 {
        var _ := UpdateStatus(id, Queued, None);
      }
    }

    /** `record_remediation_alias`; true when something was recorded. */
    method RecordAlias(id: nat, key: string) returns (recorded: bool)
      modifies this`rows
      ensures rows == if Exists(old(rows), id)
                      then With(old(rows), id, RowOf(old(rows), id).(payload := Dedupe.WithAlias(RowOf(old(rows), id).payload, key)))
                      else old(rows)
      ensures recorded <==> rows != old(rows)
      ensures recorded <==> && Exists(old(rows), id)
                            && var p := old(rows)[id - 1].payload;
                               && Strip(key) != "" && Strip(key) != p.dedupeKey && Strip(key) !in p.aliases
                               && |p.aliases| < 25
      ensures recorded ==> && rows[id - 1].payload.aliases == old(rows)[id - 1].payload.aliases + [Strip(key)]
                           && rows[id - 1].status == old(rows)[id - 1].status
                           && rows[id - 1].payload.dedupeKey == old(rows)[id - 1].payload.dedupeKey
      ensures rows == Effect(policy, old(rows), RemediationTable.Step.RecordAlias(id, key))
    {
      EffectOnOne(policy, rows, RemediationTable.Step.RecordAlias(id, key), id);
      if !Exists(rows, id) {
        return false;
      }
      var row := RowOf(rows, id);
      var payload := Dedupe.WithAlias(row.payload, key);
      recorded := payload != row.payload;
      rows := With(rows, id, row.(payload := payload));
    }

    /** `merge_remediation_payload`, of keys that are none of the payload's own fields here: the
        one caller stamps the outcome of a deep report's pull request. */
    method MergePayload(id: nat, emptyPatch: bool, prUrl: Option<string>) returns (applied: bool)
      modifies this`rows
      ensures applied <==> Exists(old(rows), id) && !(emptyPatch && prUrl.None?)
      ensures rows == if applied then With(old(rows), id, MergedRow(RowOf(old(rows), id), prUrl)) else old(rows)
      ensures applied ==>
                var was, row := old(rows)[id - 1], rows[id - 1];
                && row.status == was.status && (prUrl.Some? ==> row.prUrl == prUrl) && (prUrl.None? ==> row.prUrl == was.prUrl)
                && SameBut(row, was) && SameKind(row, was) && SameLease(row, was) && row.attempts == was.attempts
      ensures rows == Effect(policy, old(rows), RemediationTable.Step.MergePayload(id, prUrl))
    {
      EffectOnOne(policy, rows, RemediationTable.Step.MergePayload(id, prUrl), id);
      if emptyPatch && prUrl.None? {
        return false;
      }
      applied := Exists(rows, id);
      if applied {
        rows := With(rows, id, MergedRow(RowOf(rows, id), prUrl));
      }
    }

    /** `resolve_node_incidents_for_ready_hosts`, over the incident keys of the ready hosts. */
    method ResolveNodeIncidents(keys: set<string>) returns (closed: seq<nat>)
      modifies this`rows
      ensures rows == Recovered(old(rows), keys)
      ensures forall id: nat :: id in closed <==> Exists(rows, id) && RowOf(rows, id) != RowOf(old(rows), id)
      ensures rows == Effect(policy, old(rows), Recover(keys))
      ensures |rows| == |old(rows)|
      ensures forall i :: 0 <= i < |rows| ==>
                var was, row := old(rows)[i], rows[i];
                if was.payload.dedupeKey in keys && was.status in {Queued, NeedsHuman, Filed}
                then row.status == Resolved && SameBut(row, was) && SameKind(row, was) && SameLease(row, was)
                else row == was
    {
      EffectOnOne(policy, rows, Recover(keys), 0);
      closed := [];
      for i := 0 to |rows|
        invariant |rows| == |old(rows)|
        invariant forall k :: 0 <= k < i ==> rows[k] == RecoveredRow(old(rows)[k], keys)
        invariant forall k :: i <= k < |rows| ==> rows[k] == old(rows)[k]
        invariant forall id: nat :: id in closed <==> 1 <= id <= i && RowOf(rows, id) != RowOf(old(rows), id)
      {
        if RecoveredRow(rows[i], keys) != rows[i] {
          closed := closed + [i + 1];
        }
        rows := rows[i := RecoveredRow(rows[i], keys)];
      }
    }
  }
}
