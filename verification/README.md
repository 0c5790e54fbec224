# Verified models of CFOperator's stateful protocols

CFOperator is an operations agent: it investigates alerts with language models, keeps what it
learns in PostgreSQL, and hands remediations to an executor under human supervision. This
project models the parts of it whose correctness is about whole runs rather than single calls,
and proves what those parts are for. `dafny verify dfyconfig.toml` checks all of it.

Five protocols:

- **The offline outbox and its replay** (`LocalBuffer`, `Outbox`, `OutboxPasses`,
  `InvestigationStore`, `Replay`, `OfflineSession`, `ResilientKnowledgeBase`). Writes that do not
  reach the database are numbered, appended to rotating files, replayed in order, and their files
  deleted; investigations started offline carry negative ids until replay. The central results:
  nothing vanishes unreplayed, and offline then replay is as if online.
- **The remediation queue and its dedupe funnel** (`Remediation`, `RemediationPolicy`,
  `RemediationTable`, `RemediationQueue`, `RemediationRuns`, `Dedupe`, `EnqueueFunnel`).
  Where a row in the queue comes from, what a lease and a retry cost, that a confirmed command is
  never drained, when open keys stay unique, and that the dedupe decision remembers.
- **The whole-chain circuit breaker** (`CircuitBreaker`), against a breaker that never prunes.
- **Host-write questions and chat Stop** (`HostWrite`, `ChatStop`), as interleaved atomic steps.
- **The deep-investigation ingest** (`DeepIngest`): find or create, and who stores a row, over a
  knowledge base that may buffer the insert and replay it later.

Four smaller algorithms: framing untrusted text (`Delimiters`, `Escaping`, `EscapedText`,
`Framing`), co-failing services and their table (`FailurePatterns`, `ServiceCorrelations`), the
two-tier embedding cache (`EmbeddingCache`, `CacheOverlaps`), and the node-action allowlist
(`NodeActionPlan`). `Text`, `Floats` (a float that may be NaN or infinite) and `Wrappers` are shared
helpers.

A class with fields is modelled as a class, and each of its methods is proved to take its state to
what a function of the old state says; theorems about runs and interleavings are about those
functions. What a step does is besides stated outright, without its function: on the method where
there is one, and for the rest in lemmas that say column by column, case by case or number by number
what is written, answered or refused, and that nothing else is. Where a method is interrupted in the
program (a lock released, a thread waiting), its pieces are separate steps of a run and the run
interleaves them freely: the two locks of an append, the read and the write of an Approve and of the
reaper, the phases of a storage thread, the parts of a cache call. Each method of
`RemediationQueue.Queue` also promises that it is the step of its name. Calls out of the program,
clocks and failures are parameters of the step that meets them; a process may be restarted, and the
gate's configuration changed, between any two steps.

Some of what one would like to be true is not. In each case the code is modelled as it is, a
concrete run or input shows the failure, and the exact condition is proved:

- A number is taken under one lock and appended under another (agent/local_buffer.py:110-128); a
  pass can then delete an event it never read. It can exactly if a number still in flight is below
  the last one in its snapshot. A file that grows during a pass is replayed twice.
- A replayed terminal update without a completion time is given one (agent/knowledge_base.py:6052).
- A fold is only looked for among the newest hundred open rows, and a candidate that names nothing
  is always new (agent/dedupe_reference.py:138-213).
- Local ids start again in a new process and the map from them to rows is lost, while the outbox
  stays (agent/knowledge_base.py:6156-6158). Two processes' n-th offline starts get the same id, and
  what was written under an id whose start was replayed before the restart is dropped: a write
  reaches the investigation it was meant for if and only if that start was replayed and no restart
  came since.
- A manual row can be handed to the executor if an operator made it manual while it was leased, or
  while the drainer, the reaper or an Approve had it in hand. From a given state it can, unless it
  is reclassified or the attempt cap is raised, if and only if it is queued, in the hands of the
  drainer or of an Approve, or in reach of the reaper with an attempt left.
- Approve reads the row and its conflict in one transaction and writes in another
  (web_server.py:2005-2013). It writes a row that has a pull request if and only if the row got it
  in between.
- Of those who put a waiting row into the queue, back into it or hand it out, only Approve asks
  whether it has a pull request, so the executor can be handed one that has: a deep report stamps
  its own on the queued row it has just enqueued (agent/agent.py:6062-6080), or a Job reports one as
  the reaper takes its lease. From a given state such a row can be handed out under the condition of
  a manual one, and besides by a Reclassify through the gate.
- An approved change record can be persisted onto a row whose lease the reaper has taken, and no
  reaper sees that row again; reapers see every row in flight, at every step of a run, if and only
  if that never happens. A row resolved or rejected while the drainer or reaper has it in hand goes
  back to the queue, and approving a rejected row can give two open rows one key: keys stay unique
  if and only if no step revives a closed row whose key has been taken.
- The `RemediationQueue` docstring calls `failed` terminal (agent/knowledge_base.py:1097), while
  Reclassify re-gates it and every duplicate check treats it as open; the model follows the code.
- A confidence floor configured as NaN passes the range check, and then nothing is eligible; an
  infinite lease timeout or attempt cap raises (agent/knowledge_base.py:791-820), as does an
  infinite `max_commands` (agent/node_action_plan.py:72-108).
- An approval that lands between a question's timeout and its closing is told 'ok' and runs nothing.
- One alert gets a second row in exactly three ways: its lookup raises and the insert goes through;
  its thread makes its own insert late, after the first one raised; or a start that was buffered for
  it is replayed, which an ordinary outage leads to.
- A row that replay makes of a running storage thread is not among those marked as being stored, so
  a retry resumes it and two threads write it. Two running threads write one row in exactly this
  way, or when the waiting start of one is skipped over an older row of its local id. A row whose
  report still waits in the outbox is resumed too.
- Runs of four or more backticks still hold a fence after escaping.
- A circuit whose probe is released admits a second caller within the same cooldown. Admissions are
  counted exactly, and one probe a cooldown holds if and only if every release that met a running
  probe was used up by a failure without one or has not been taken up yet.
- An embedding with a NaN or an infinite element is stored as text that cannot be read back
  (agent/embedding_service.py:164-172, 268-305), and is forgotten exactly when it is evicted from
  memory. So is an empty one, which the one caller does not put.
- The cache's lock covers its memory tier only (agent/embedding_service.py:223-266). A get can put
  an old vector back after a put has replaced it, and two puts can cross; exactly then does memory
  contradict the database on a key with no put under way.
- A stored allowlist is read back as it was picked unless a name in a proper pick contains a comma
  or white space.

## Model

| member | source | states |
|---|---|---|
| `LocalBuffer.LocalEventBuffer.constructor` | agent/local_buffer.py:85-98 | A restart takes up the highest number found in any file, and no open file |
| `LocalBuffer.LocalEventBuffer.Allocate` | agent/local_buffer.py:110-113 | The half of an append under the sequence lock |
| `LocalBuffer.LocalEventBuffer.Write` | agent/local_buffer.py:123-153 | The half under the write lock: into the open file, or a new one; rotation closes it |
| `LocalBuffer.LocalEventBuffer.BufferEvent` | agent/local_buffer.py:100-138 | Both halves, one after the other, when no other writer comes between |
| `LocalBuffer.LocalEventBuffer.GetPendingEvents` | agent/local_buffer.py:172-192 | Every event in every file, in sequence order |
| `LocalBuffer.LocalEventBuffer.MarkSynced` | agent/local_buffer.py:194-232 | Deletes exactly the files whose highest number is at most the one synced, the open file included |
| `LocalBuffer.SortBySequenceCorrect` | agent/local_buffer.py:190-192 | Reading what is pending loses and adds nothing, and answers in ascending order |
| `LocalBuffer.CreateOrAppendExactly` | agent/local_buffer.py:123-138 | An append to a named file adds one event at its end, in a new file if there was none, and touches no other file |
| `LocalBuffer.WriteThroughExactly` | agent/local_buffer.py:123-138 | A write through the open handle adds one event at the end of that file, nothing if the file has been deleted, and touches no other |
| `LocalBuffer.UnsyncedExactly` | agent/local_buffer.py:205-226 | A file survives a mark, whole, exactly if it holds a number above it |
| `LocalBuffer.MarkExactly` | agent/local_buffer.py:205-232 | The same of every file by name; the open file is closed exactly if it was deleted, and the numbering is left alone |
| `Outbox.RunKeepsInv` | agent/local_buffer.py:100-232 | Over every run of split or whole appends, passes and restarts: numbers on disk and in flight are unique, only events that were buffered are on disk or replayed |
| `Outbox.NothingVanishesUnreplayed` | agent/knowledge_base.py:6250-6281 | In every run in which no snapshot is taken while a number below its last event is still in flight, each buffered event is on disk or was handed to replay, through replay failures, early breaks, rotation and restarts |
| `Outbox.AtomicAppendsLoseNothing` | agent/local_buffer.py:100-138 | With number and append under one lock, nothing vanishes in any run at all |
| `OutboxPasses.PassCanLoseIffOvertaken` | agent/local_buffer.py:110-128 | A pass can lose an event exactly if a number in flight is below the last one in its snapshot |
| `OutboxPasses.OvertakenEventVanishes` | agent/local_buffer.py:110-128 | The interleaving that loses an event with the two locks as they are |
| `OutboxPasses.HandedOverExactlyOnce` | agent/knowledge_base.py:6250-6281 | Handed over exactly once when no append falls between a snapshot and its mark and no pass breaks early |
| `OutboxPasses.KeptExactlyWithLaterEvent` | agent/local_buffer.py:211-226 | A mark keeps an event exactly if its file also holds a later number |
| `OutboxPasses.GrownFileIsHandedOverAgain` | agent/local_buffer.py:211-226 | A file that grows after the snapshot is kept whole, and its replayed events are handed over again |
| `InvestigationStore.DirectView` | agent/knowledge_base.py:2794-2830 | Direct writes to an investigation, read back as its row and its events in order |
| `InvestigationStore.OnlineReads` | agent/knowledge_base.py:2794-2890 | Direct writes column by column: each column holds what the last update that gave it gave it, a terminal outcome without a time is stamped, the events are those recorded, in order, and no other investigation, drift or baseline changes |
| `Replay.ReplayAllTracks` | agent/knowledge_base.py:6283-6343 | Replaying a log writes to the row behind a local id exactly that id's writes, in order, whatever else is in the log |
| `Replay.ReplayAllElse` | agent/knowledge_base.py:6324-6336 | What a log does beside investigations: its drifts in order, the last state given for each baseline, one new row a start |
| `Replay.ReplayedAsIfOnline` | agent/knowledge_base.py:6283-6361 | Offline, then one complete replay: the writes up to the next start under the same id, a later process's included in the log, leave the row and the events that direct writes would have left, up to the fresh id and with completion times stamped |
| `Replay.ReplayedUpdateAgreesExactly` | agent/knowledge_base.py:6052-6075 | A replayed update equals the direct one if and only if it is not a terminal outcome that came without a completion time |
| `Replay.OfflineRefinesOnline` | agent/knowledge_base.py:6283-6361 | The same: when every terminal update carries its time, replay and direct writes leave the same row; otherwise they differ in completion time only |
| `Replay.DistinctStartsDistinctRows` | agent/knowledge_base.py:6283-6292 | Two investigations started offline are replayed into two different rows, under different ids or under one that a restart reused |
| `Replay.LaterPassContinues` | agent/knowledge_base.py:6338-6343 | A later pass continues the same row: two passes write what one would have |
| `Replay.WriteIsLostExactly` | agent/knowledge_base.py:6338-6343 | Over any passes, skipped events and restarts, a write under a local id goes to the row of the last start under it replayed since the last restart, and is dropped exactly if there is none |
| `Replay.ReachesMeantExactly` | agent/knowledge_base.py:6156-6158 | That is the investigation it was meant for if and only if its start was replayed, not skipped, and no restart has come since |
| `OfflineSession.LocalIdsExactly` | agent/knowledge_base.py:6357-6361 | The n-th offline start of a process gets -1 - n: never the -1 placeholder, below every earlier one of its process, and the same as another process's exactly if both are its n-th |
| `OfflineSession.CallMeans` | agent/knowledge_base.py:6394-6503 | What a call that reaches the database changes and what one that does not puts in the log, and nothing else; a restart forgets the local ids only |
| `OfflineSession.SessionAsIfOnline` | agent/knowledge_base.py:6394-6503 | A whole session, some calls reaching the database and some not, restarts in between: after one replay, an investigation started offline reads as its calls meant it, up to the next start under its id |
| `OfflineSession.OneProcessMeansAll` | agent/knowledge_base.py:6357-6361 | In a process that is not restarted there is no next one: all that it writes under the id is in the row |
| `ResilientKnowledgeBase.ResilientKnowledgeBase.StartInvestigation` | agent/knowledge_base.py:6394-6415 | The database's id when it answers, the next local id and one more pending event when it does not |
| `ResilientKnowledgeBase.ResilientKnowledgeBase.RecordInvestigationEvent` | agent/knowledge_base.py:6417-6465 | Written through only for a positive id and a healthy database, else appended to what is pending |
| `ResilientKnowledgeBase.ResilientKnowledgeBase.UpdateInvestigation` | agent/knowledge_base.py:6467-6503 | The same, for an update |
| `ResilientKnowledgeBase.ResilientKnowledgeBase.ReplayEvent` | agent/knowledge_base.py:6283-6336 | One event's effect on the database and on the map of local ids |
| `ResilientKnowledgeBase.ResilientKnowledgeBase.SyncBufferedEvents` | agent/knowledge_base.py:6250-6281 | One pass: what it counts; and the database it leaves is the old one with exactly those events replayed, in order, that come before the third failure in a row and do not raise, marked up to the last one handed over |
| `ResilientKnowledgeBase.PassExactly` | agent/knowledge_base.py:6258-6281 | The same of any pass with failures in terms of the events alone: it ends behind the first three failures in a row, or at the end; what it wrote is the replay, in order, of the events before that which did not raise |
| `ResilientKnowledgeBase.PassWithoutFailures` | agent/knowledge_base.py:6258-6277 | A pass without failures replays everything pending |
| `ResilientKnowledgeBase.PassStopsAtBreak` | agent/knowledge_base.py:6265-6277 | A pass that breaks has handed over what was before the break and nothing after it |
| `ResilientKnowledgeBase.PassIsOutboxSteps` | agent/knowledge_base.py:6250-6281 | The loop is a run of the outbox's steps, so what is proved about those runs holds of it |
| `ResilientKnowledgeBase.PendingGrows` | agent/local_buffer.py:190-192 | A freshly numbered event sorts behind everything pending |
| `ResilientKnowledgeBase.RestartIsNewProcess` | agent/knowledge_base.py:6156-6158 | A new process on the old files is the restart of a session: local ids start again at -1, numbering and log go on |
| `Dedupe.NewExactly` | agent/dedupe_reference.py:150-213 | When no node owns the candidate, "new" exactly if no row in the window folds it and no open row has its key; otherwise the first row that folds it, or a row with its key |
| `Dedupe.DecisionExactly` | agent/dedupe_reference.py:150-213 | The decision itself, when no node owns the candidate: what is said of the first row that folds it, by which tier, sharing what and with which alias; else the first open row that has its key; else new under its key |
| `Dedupe.NodeDecisionExactly` | agent/dedupe_reference.py:188-199 | When a node that is not ready owns it under another key: folded into the incident row of that node, or a row that has its key as an alias within the window, and new under the key of the node exactly if there is none |
| `Dedupe.OwnNodeDecisionExactly` | agent/dedupe_reference.py:188-213 | When its key is the node's own: suppressed by an open row with the key, else new |
| `Dedupe.SameTargetExactly` | agent/dedupe_reference.py:95-104 | Same kind and repository, and one id the other or a whole path segment at its end |
| `Dedupe.AskingAgain` | agent/dedupe_reference.py:178-213 | After a decision is applied the same question names the same row, exactly if the decision was not new or the candidate has a node, a key, a target or an identifier |
| `Dedupe.FoldIsCarried` | agent/knowledge_base.py:4665-4689 | The row a candidate was folded into carries its key from then on, unless it has 25 aliases already |
| `Dedupe.KeyedStaysDeduplicated` | agent/dedupe_reference.py:178-213 | A keyed candidate once inserted or suppressed is never new again, whatever is enqueued in between |
| `Dedupe.FoldForgottenBehindWindow` | agent/dedupe_reference.py:138-175 | Behind a hundred other open rows a fold and its alias are forgotten, and the candidate is new |
| `Dedupe.FallbackSuppressesOnlyRepeats` | agent/dedupe_client.py:134-146 | When no node owns the candidate, what the fallback suppresses the service would not have called new |
| `Dedupe.FallbackExactly` | agent/dedupe_client.py:134-146 | The fallback suppresses exactly what has a key that an open row has, naming such a row |
| `RemediationPolicy.AutoClassesExactly` | agent/knowledge_base.py:823-845 | The live list holds, once each, exactly the configured names that exist and are not park-only; no list means the default |
| `RemediationPolicy.PolicyIsSafe` | agent/knowledge_base.py:791-871 | For every configuration: no park-only class, a positive lease and attempt cap, a floor in [0, 1] unless it is configured as NaN; an infinite whole number raises |
| `RemediationPolicy.PolicyExactly` | agent/knowledge_base.py:791-871 | Every field of the policy from the configuration alone: a whole number of at least 1 is taken as the lease timeout or attempt cap it was given for, else 1800 and 3; a number in [0, 1] as the floor or the summary cap it was given for, else 0.8 and 0.5; the classes are the configured ones of the three that may run, two when none are configured |
| `RemediationPolicy.EligibleMeans` | agent/knowledge_base.py:764-890 | What passes the gate is of a class that may run, low-risk, with a confidence; a NaN passes nothing |
| `RemediationPolicy.EligibleExactly` | agent/knowledge_base.py:764-890 | The gate passes exactly a listed class, low risk and a confidence at or above a floor that is a number |
| `RemediationQueue.Queue.QueueRemediation` | agent/knowledge_base.py:4526-4598 | Inserts one row in the status the gate or an open PR gives it, or nothing if an open row has the key |
| `RemediationQueue.Queue.QueueConfirmedHostCommand` | agent/knowledge_base.py:4600-4632 | Inserts one claimed row, and refuses another source |
| `RemediationQueue.Queue.ClaimNext` | agent/knowledge_base.py:4757-4798 | Claims a queued row, not excluded, that no other such row precedes in priority and age; None only if there is none |
| `RemediationQueue.Queue.UpdateStatus` | agent/knowledge_base.py:4850-4883 | Writes status and PR of one row |
| `RemediationQueue.Queue.ReleaseClaim` | agent/knowledge_base.py:4885-4913 | Back to queued, lease cleared, no attempt burned |
| `RemediationQueue.Queue.Fail` | agent/knowledge_base.py:4915-4958 | One attempt burned: failed for a confirmed command, needs-human at the cap, else queued with its lease cleared |
| `RemediationQueue.Queue.RequeueStale` | agent/knowledge_base.py:4960-4982 | Fails exactly the in-flight rows whose lease has expired, each once, and counts them |
| `RemediationQueue.Queue.Reclassify` | agent/knowledge_base.py:5137-5166 | Overrides fields and re-gates only a queued, parked or failed row |
| `RemediationQueue.Queue.ApplyPolicy` | agent/knowledge_base.py:791-871 | The gate configuration as it now stands; one that raises leaves the old in force |
| `RemediationQueue.Queue.Approve` | web_server.py:2005-2015 | Both halves when nothing comes between: 404, 409 on a conflict, or queued |
| `RemediationQueue.Queue.RecordAlias` | agent/knowledge_base.py:4665-4689 | Records a new key once, up to the limit, and says whether it did |
| `RemediationQueue.Queue.MergePayload` | agent/knowledge_base.py:4800-4828 | Leaves the status alone and sets the pull request if one is given; nothing to apply or an unknown row changes nothing |
| `RemediationQueue.Queue.ResolveNodeIncidents` | agent/knowledge_base.py:4721-4755 | Closes exactly the paperwork rows of the ready hosts |
| `RemediationRuns.RunKeepsRow` | agent/knowledge_base.py:4526-5166 | What every run keeps of every row: why it is in the cycle, its lease, its class |
| `RemediationRuns.QueuedExactlyIfGranted` | agent/knowledge_base.py:4526-5166 | Over every run, a row was ever in the queue if and only if the gate, under the policy then in force, or an Approve let it in |
| `RemediationRuns.ClaimsAreGranted` | agent/knowledge_base.py:4757-4798 | Every claimed row was let into the queue by the gate or by Approve; a manual one was made manual while leased, or while the drainer, the reaper or an Approve had it |
| `RemediationRuns.ManualHandedOutExactly` | agent/knowledge_base.py:4757-4982 | From a reachable state a manual row can still be handed out, not reclassified and under no higher attempt cap, if and only if it is queued, in the hands of the drainer or of an Approve, or in reach of the reaper with an attempt left |
| `RemediationRuns.ManualRowHandedOut` | agent/knowledge_base.py:5147-5162 | The run that hands out a manual row: reclassified while leased, then released |
| `RemediationRuns.ManualRowApproved` | web_server.py:2005-2013 | The other one: reclassified between the read and the write of an Approve |
| `RemediationRuns.LeasesAreVisible` | agent/knowledge_base.py:4884-4982 | Over every run, a row in flight is always seen by a late enough reaper if and only if no change record was ever persisted onto it after its lease was gone; until then it has Job and lease time |
| `RemediationRuns.LeaseLostUnderDrainer` | agent/agent.py:5430-5492 | The run that gets there |
| `RemediationRuns.ReapCostsOneAttemptEach` | agent/knowledge_base.py:4960-4982 | A reap changes no unexpired row, leaves no expired lease, and adds to the table's attempts exactly the number of expired leases |
| `RemediationRuns.RetriesAreBounded` | agent/knowledge_base.py:4915-4958 | Failures send a row back to queued at most cap - 1 times, whatever anyone does, for the highest cap that the policy takes |
| `RemediationRuns.ClaimsAreBounded` | agent/knowledge_base.py:4757-4958 | A row that is not released, approved or reclassified is claimed at most cap times |
| `RemediationRuns.ConfirmedIsNeverDrained` | agent/knowledge_base.py:4600-4632 | A confirmed command was ever queued if and only if an operator's Approve or Reclassify put it there; until then the drainer never holds it and no claim is handed it |
| `RemediationRuns.PrHandedOutExactly` | agent/knowledge_base.py:4757-4982 | From a reachable state a row with a pull request can still be handed out, without a Reclassify through the gate, a higher attempt cap or an emptied URL, if and only if it is queued, in the hands of the drainer or of an Approve, or in reach of the reaper with an attempt left |
| `RemediationRuns.StampedRowHandedOut` | agent/agent.py:6062-6080 | The ordinary run: a deep report stamps its pull request on the queued row it has just enqueued |
| `RemediationRuns.ReapedRowWithPr` | agent/knowledge_base.py:4972-4980 | Another: the Job reports its pull request between the reaper's read and its write |
| `RemediationRuns.ReclassifiedRowWithPr` | agent/knowledge_base.py:5147-5162 | What the exact condition excludes: a parked row with a pull request reclassified through the gate |
| `RemediationRuns.PrIsNeverApproved` | agent/knowledge_base.py:914-942 | Once a row has a pull request and no Approve has it in hand, it keeps one over every continuation and no Approve writes it again |
| `RemediationRuns.ApprovedWithPr` | web_server.py:2005-2013 | An Approve writes a row with a pull request if and only if the row got it between the read and the write of an Approve, its URL not being emptied since |
| `RemediationRuns.RowWithPrApproved` | web_server.py:2005-2013 | The run in which it does, and the row is handed out again |
| `EnqueueFunnel.UniqueKeysExactly` | agent/knowledge_base.py:4571-4598 | A step keeps open keys unique if and only if it does not revive a closed row whose key an open row has taken |
| `EnqueueFunnel.OpenKeysStayUnique` | agent/knowledge_base.py:4571-4598 | Over any run, whatever was decided, no two open rows ever share a key if and only if no step is such a revival |
| `EnqueueFunnel.UniqueWhileClosedLeftAlone` | agent/knowledge_base.py:4850-4958 | So keys stay unique in every run in which no Approve, late status, drainer or reaper meets a closed row |
| `EnqueueFunnel.ApproveTakesKeyBack` | web_server.py:2005-2015 | Two open rows with one key: reject, enqueue again, approve the rejected row |
| `EnqueueFunnel.ResolvedRowQueuedAgain` | agent/knowledge_base.py:4972-4980 | A row resolved between the reaper's read and its write goes back to queued |
| `EnqueueFunnel.NewKeyIsFree` | agent/dedupe_reference.py:203-213 | Under one lock, a row the service calls new is always inserted: the backstop never fires |
| `EnqueueFunnel.FallbackNewKeyIsFree` | agent/dedupe_client.py:134-146 | The same for the fallback with a snapshot |
| `EnqueueFunnel.FunnelRefinesDecision` | agent/agent.py:5023-5080 | Acting on a decision leaves the table whose snapshot the decision itself predicts |
| `EnqueueFunnel.FunnelRemembers` | agent/agent.py:5023-5080 | Asked again about the table after the funnel has acted, the service names the same row |
| `CircuitBreaker.ChainCircuitBreaker.BeforeCall` | agent/llm_fallback.py:143-158 | A disabled or closed breaker admits; it refuses exactly while the circuit is open and its time has not come, until that time, or half-open with a probe running, until a cooldown from now; an open circuit whose time has come goes half-open with a probe |
| `CircuitBreaker.ChainCircuitBreaker.RecordSuccess` | agent/llm_fallback.py:160-165 | Closes and forgets |
| `CircuitBreaker.ChainCircuitBreaker.RecordFailure` | agent/llm_fallback.py:167-187 | Prunes the window, opens at the threshold or on a failed probe, and says whether it opened |
| `CircuitBreaker.ChainCircuitBreaker.ReleaseProbe` | agent/llm_fallback.py:189-194 | Frees the probe of a half-open circuit and nothing else |
| `CircuitBreaker.PrunedBreakerRefinesUnpruned` | agent/llm_fallback.py:143-203 | With a clock that does not go back, the pruned breaker is the one that keeps its full history: same state, and its failures are the history within the window, sorted, fewer than the threshold, none unless closed |
| `CircuitBreaker.RefusedExactly` | agent/llm_fallback.py:143-158 | The same verdicts over every clocked run, in terms of the breaker that never prunes |
| `CircuitBreaker.OpensExactlyAtThreshold` | agent/llm_fallback.py:167-187 | From closed, a failure opens exactly if the full history has a threshold of failures in the window |
| `CircuitBreaker.AdmissionsAccounted` | agent/llm_fallback.py:143-203 | While no success is recorded: admissions plus failures that met no probe are the reopenings, plus the releases that met a running probe, plus the probe running now |
| `CircuitBreaker.OneProbePerCooldown` | agent/llm_fallback.py:143-158 | While no success is recorded, opens are a cooldown apart, and each half-open episode has admitted exactly one caller if and only if the releases that met a running probe are as many as the failures without one and the vacancy now |
| `CircuitBreaker.OpenSinceLastTrip` | agent/llm_fallback.py:167-187 | An open circuit reopens one cooldown after the last time it was opened |
| `CircuitBreaker.AdmissionBound` | agent/llm_fallback.py:143-203 | Calls admitted by a time, less those that only a released probe let in, are at most the cooldowns that fit since the first open |
| `CircuitBreaker.ReleasedProbeAdmitsAgain` | agent/llm_fallback.py:189-194 | The run in which a release lets a second caller in within the same cooldown |
| `CircuitBreaker.ClosedOnlyBySuccess` | agent/llm_fallback.py:160-165 | An open circuit is closed by a recorded success and by nothing else |
| `HostWrite.PendingConfirms.Open` | agent/host_write.py:65-70 | One more question, unanswered |
| `HostWrite.PendingConfirms.Close` | agent/host_write.py:72-74 | The question leaves the table |
| `HostWrite.PendingConfirms.IsOpen` | agent/host_write.py:76-79 | In the table and unanswered |
| `HostWrite.PendingConfirms.Resolve` | agent/host_write.py:81-98 | The first answer wins; unknown and answered change nothing |
| `HostWrite.HostWriteConfirmer.Conclude` | agent/host_write.py:157-175 | The end of a call, from the wait's verdict and the entry |
| `HostWrite.AtMostOneOk` | agent/host_write.py:81-98 | In every interleaving at most one resolve of a question is told ok |
| `HostWrite.ReplyExactly` | agent/host_write.py:81-98 | What a resolve is told, from the run before it: unknown exactly if the question was never opened or has been closed, ok exactly if it is open and nobody was told ok, and else that it was answered |
| `HostWrite.RunsOnlyAsApproved` | agent/host_write.py:145-175 | A confirmed command runs at most once, with the name and time of the one approving answer, never after a decline or a timeout |
| `HostWrite.DeclinedNeverRuns` | agent/host_write.py:145-175 | A question whose winning answer is a decline never runs its command, and ends declined by that name |
| `HostWrite.OkRanExactly` | agent/host_write.py:145-175 | An approval told ok ran exactly if it came before the wait expired, when no announcement failed |
| `HostWrite.ApprovalLostInGap` | agent/host_write.py:151-157 | The gap: an approval told ok between the expiry and the close runs nothing |
| `HostWrite.BusyCountsCalls` | agent/host_write.py:125-143 | The counter is the number of calls in flight |
| `ChatStop.ChatSession.Deliver` | web_server.py:1557-1598 | One turn of the worker: recorded, or after a stop done, with the question it asks declined under the actor's name, now, and no other answer touched |
| `ChatStop.ChatSession.Stop` | web_server.py:1654-1662 | Refused when done; else the flag and a snapshot of the questions |
| `ChatStop.DeclineAll` | web_server.py:1663-1668 | Every question of the snapshot that waited is answered no, by the actor, now, because of the stop; every other entry is as it was |
| `ChatStop.DeclineOne` | web_server.py:1573-1574 | The same of one question |
| `ChatStop.StoppedNeverRuns` | web_server.py:1663-1668 | In every interleaving a question that a stop answered first never runs its command |
| `ChatStop.NoOrphanQuestion` | web_server.py:1557-1670 | Once a stop has taken effect and worker and stops have finished, no question whose event the worker consumed still waits |
| `ChatStop.NothingAddedAfterStop` | web_server.py:1563-1590 | After a stop nothing joins the session's questions, and the next event is the worker's last |
| `ChatStop.UnconsumedQuestionWaits` | web_server.py:1552-1598 | A question whose event is never consumed is left to its timeout |
| `DeepIngest.Ingest.Begin` | agent/agent.py:5959-5974 | The row, the buffered start under the next local id, or neither; a real row is claimed for its thread |
| `DeepIngest.Ingest.Post` | web_server.py:517-545 | Duplicate, resumed or created, with the row claimed for its thread |
| `DeepIngest.Ingest.Discard` | web_server.py:562-566 | The thread lets go of its row |
| `DeepIngest.NewestFinds` | agent/knowledge_base.py:2772-2792 | The lookup finds the newest matching row in the window |
| `DeepIngest.DecisionMeans` | web_server.py:517-545 | What the route answers: duplicate of the newest row the alert was given within 900 s if that has a report or is claimed, resumed if not, and else one row begun with the reply linking it only if it is in the table |
| `DeepIngest.OneClaimPerRow` | web_server.py:517-566 | In every interleaving of posts, threads, replays and restarts, whatever fails, a row is marked as being stored exactly while one running thread has its id |
| `DeepIngest.OneWriterExactly` | web_server.py:517-566 | No two running threads ever write to one row if and only if no post resumes a row that replay made of a running thread, and no waiting start of one is skipped over an older row of its local id |
| `DeepIngest.ReplayedStartIsResumed` | agent/knowledge_base.py:6283-6292 | The run with two: the start buffered in an outage, replayed while its thread runs, resumed by a retry |
| `DeepIngest.ResumedExactly` | web_server.py:517-545 | A duplicate exactly if stored or claimed by a running thread; else resumed with a thread of its own, and another writes the row only if replay made it of that thread |
| `DeepIngest.OneRowPerAlert` | web_server.py:517-566 | Inside one window, lookups and inserts succeeding: at most one row for the alert, and every reply carries it |
| `DeepIngest.SecondRowExactly` | web_server.py:517-558 | The three ways to a second row: a lookup that raised, a thread's own late insert, or the replay of a buffered start of the alert |
| `DeepIngest.BufferedStartMakesSecondRow` | agent/knowledge_base.py:6394-6415 | The run of the third: buffered in an outage, inserted by the retry, then replayed |
| `DeepIngest.TwoRowsForOneAlert` | web_server.py:550-558 | The run of the second |
| `Delimiters.ShapeMatches` | agent/prompt_injection.py:60-63 | Everything of the delimiter's shape, in any case, spacing and joiner, is read as one |
| `Delimiters.MatchIsShape` | agent/prompt_injection.py:60-63 | And nothing else: what is read as a delimiter has the shape |
| `Delimiters.DelimiterIsReplaced` | agent/prompt_injection.py:96-96 | Each becomes a bracketed word of its kind, and the text behind it is treated the same |
| `Delimiters.NoDelimiterSurvives` | agent/prompt_injection.py:96-96 | After the substitution there is none, and none is put together from what was around those removed |
| `Escaping.EscapedHasNoDelimiter` | agent/prompt_injection.py:79-98 | Nor do the later substitutions put one together |
| `Escaping.FencesLeft` | agent/prompt_injection.py:97-97 | Breaking fences leaves three backticks exactly where there were four |
| `Escaping.FenceSurvivesExactly` | agent/prompt_injection.py:79-98 | An escaped text has three backticks in a row if and only if the text had four |
| `Escaping.EscapedHasNoMarker` | agent/prompt_injection.py:51-59 | No upper-case role or verdict marker is left at a line start or behind an escaped newline, and none is made |
| `EscapedText.ShapeIsMarker` | agent/prompt_injection.py:51-59 | Blanks, an upper-case word of the list, blanks and a colon are read as a marker, up to the colon |
| `EscapedText.MarkerIsShape` | agent/prompt_injection.py:51-59 | And nothing else is |
| `EscapedText.EscapedShowsNoMarker` | agent/prompt_injection.py:79-98 | In an escaped text nothing of that shape is left at a line start or behind an escaped newline |
| `EscapedText.MarkerIsReplaced` | agent/prompt_injection.py:98-98 | A marker keeps its indent and its word, and gets a zero-width space before its colon |
| `EscapedText.EscapeKeepsVisible` | agent/prompt_injection.py:79-98 | Delimiters apart, escaping changes blanks and zero-width spaces only: everything else stays, in order |
| `EscapedText.EscapeLeavesAlone` | agent/prompt_injection.py:79-98 | A text without delimiter, fence and marker is left as it is |
| `EscapedText.EscapeTwice` | agent/prompt_injection.py:79-98 | Escaping twice is escaping once, without four backticks in a row |
| `Framing.FrameIsClosed` | agent/prompt_injection.py:101-126 | Whatever the data and the cap, a frame starts with the opening delimiter, ends with the closing one, and has no other |
| `Framing.CappedExactly` | agent/prompt_injection.py:101-108 | Within the cap the text itself; else it fills the cap, notice included, or is the notice alone where there is no room for more |
| `Framing.FrameExactly` | agent/prompt_injection.py:111-126 | What is inside: the label behind the opening delimiter, and the escaped data, capped if there is a cap |
| `Framing.JoinWithinBudget` | agent/prompt_injection.py:184-206 | The loop joins what the declarative budget keeps |
| `Framing.BudgetKept` | agent/prompt_injection.py:184-206 | Within the budget; whole frames in order, as many as fit; the marker exactly if a frame was dropped and it fits, always if any was kept |
| `Framing.BudgetExactly` | agent/prompt_injection.py:184-206 | The same in terms of the joined text alone: the most whole frames of which each prefix fits, 30 characters kept for the marker unless it is all of them |
| `Framing.AlertIsFramed` | agent/prompt_injection.py:141-181 | For every alert the delimiters of the result are START and END in turn, one pair for each frame kept, within the budget |
| `Framing.AlertShows` | agent/prompt_injection.py:141-181 | Which frames: each field that has a text under its own label and cap, the identity first, one kind of labels only, and nothing else |
| `FailurePatterns.ReplacedIsNotFailed` | agent/knowledge_base.py:321-350 | In a container change a service failed exactly if a pod of it went and none came |
| `FailurePatterns.NamedHasFailed` | agent/knowledge_base.py:321-350 | In any other drift a service failed exactly if one of the pods named is of it |
| `FailurePatterns.FailuresOfOne` | agent/knowledge_base.py:363-366 | A drift gives one failure for each service that failed in it, at its time |
| `FailurePatterns.CountRow` | agent/knowledge_base.py:369-382 | One row of the loop, ended early, finds all hits of the row |
| `FailurePatterns.CountsForExactly` | agent/knowledge_base.py:369-382 | Two failures count for a pair exactly if they are of its two services, in either order, at least a second and at most the window apart |
| `FailurePatterns.ServiceFailurePatterns` | agent/knowledge_base.py:353-397 | On events in time order the loops with their early end equal brute force |
| `FailurePatterns.PatternsExactly` | agent/knowledge_base.py:353-397 | Sorted by count; one pattern for a pair exactly if two or more pairs of failures count for it; its count is their number; its average lies in [1, window] and decides its type |
| `FailurePatterns.PatternsSay` | agent/knowledge_base.py:353-397 | The count of a pattern is the number of its gaps, and its average is theirs |
| `ServiceCorrelations.Table.SyncServiceCorrelations` | agent/knowledge_base.py:5822-5866 | The new table; updated + deleted = old rows, updated + added = pairs asked for |
| `ServiceCorrelations.SyncedMatches` | agent/knowledge_base.py:5822-5866 | Exactly one row for each unordered pair asked for, with its values, and no other |
| `ServiceCorrelations.WantedExactly` | agent/knowledge_base.py:5834-5838 | A pair is asked for exactly if a pattern names its two services, and the last such pattern gives its values |
| `ServiceCorrelations.SyncAgain` | agent/knowledge_base.py:5822-5866 | A second sync changes nothing but the time last seen |
| `EmbeddingCache.EmbeddingCache.Lookup` | agent/embedding_service.py:223-229 | The part of a get under the lock: the memory tier's answer, now the most recent |
| `EmbeddingCache.EmbeddingCache.Get` | agent/embedding_service.py:215-241 | Its parts when no other call comes between: memory, then database, promoting what it finds; one counter goes up |
| `EmbeddingCache.EmbeddingCache.PutInMemory` | agent/embedding_service.py:255-262 | To the recent end, evicting from the old end |
| `EmbeddingCache.EmbeddingCache.Persist` | agent/embedding_service.py:264-266 | The part of a put outside the lock: the database row, if it can be reached |
| `EmbeddingCache.EmbeddingCache.Put` | agent/embedding_service.py:243-266 | Both parts when no other call comes between |
| `EmbeddingCache.EmbeddingCache.Clear` | agent/embedding_service.py:318-321 | Empties memory and leaves the database |
| `EmbeddingCache.MemoryIsMostRecent` | agent/embedding_service.py:215-266 | After any trace of calls that do not overlap the memory tier is the last max_size distinct keys touched, in order of recency |
| `EmbeddingCache.TwoTiersAreOneMap` | agent/embedding_service.py:215-266 | With a database whose calls succeed and calls that do not overlap, a get answers as one unbounded map if and only if the vector last put under the key can be read back or the key is among the last max_size touched |
| `EmbeddingCache.MemoryAloneHoldsLastPut` | agent/embedding_service.py:215-241 | Without a database, exactly the keys in memory answer, with the value last put |
| `EmbeddingCache.UnreadableVectorIsForgotten` | agent/embedding_service.py:268-305 | The run in which it is not: a vector with a NaN, stored as text that cannot be parsed back, is lost once evicted |
| `CacheOverlaps.CoherentExactly` | agent/embedding_service.py:215-266 | However calls overlap, memory never contradicts the database on a key with no put under way if and only if no get puts back a vector that has been replaced and no two puts of a key cross |
| `CacheOverlaps.OverlappingAnswers` | agent/embedding_service.py:215-241 | In such a run a get is answered with what reached the database last, if and only if that can be read back or is still in memory |
| `CacheOverlaps.ExclusiveKeepsCalls` | agent/embedding_service.py:215-266 | Every run is such a run in which puts of a key overlap no other call on it |
| `CacheOverlaps.OldVectorPutBack` | agent/embedding_service.py:232-239 | The run in which a get puts the old vector back |
| `CacheOverlaps.CrossedPuts` | agent/embedding_service.py:255-266 | The run in which two puts cross |
| `NodeActionPlan.StoredSelectionRoundTrips` | agent/node_action_plan.py:127-160 | An accepted pick, stored and read back, is itself, if and only if each list is a full pick or all its names can be written in a list |
| `NodeActionPlan.StoredSelectionFollowsCeiling` | agent/node_action_plan.py:127-160 | A full pick follows a later ceiling; a proper one keeps what of it the later ceiling still has |
| `NodeActionPlan.AllowlistExactly` | agent/node_action_plan.py:72-125 | Each list of the allowlist is what of the ceiling was picked, all of it when nothing was; at least one command a plan, 4 by default |
| `NodeActionPlan.EditExactly` | agent/node_action_plan.py:127-160 | What becomes of an edit: refused for its shape, else for names off the ceiling, else for an empty pick, else stored |
| `NodeActionPlan.RefusedNames` | agent/node_action_plan.py:127-160 | The names it is refused for: those named and off the ceiling, in order, binaries first |
| `NodeActionPlan.PlanRefusals` | agent/node_action_plan.py:365-384 | The plan-level refusals, then each command's, in order |
| `NodeActionPlan.PlanPassesExactly` | agent/node_action_plan.py:365-390 | Accepted exactly if not empty, within the limit, and every command is, after sudo -n if it has it, an allowed binary that is not denied, systemctl with an allowed verb |
| `NodeActionPlan.CommandPassesExactly` | agent/node_action_plan.py:320-362 | A command passes exactly if its tokens are words that do not start with sudo, or sudo -n and some words, of which the first is allowed and not denied, and the second an allowed verb if that is systemctl |
| `NodeActionPlan.RefusalExactly` | agent/node_action_plan.py:320-362 | And which refusal it gets otherwise |
| `NodeActionPlan.RefusalsExactly` | agent/node_action_plan.py:365-384 | The refusals of a plan: one at plan level if it is empty or too long, then one for each command that does not pass, in order |
| `NodeActionPlan.PassingPlanStaysInside` | agent/node_action_plan.py:320-390 | Whatever the database holds, an accepted plan runs only binaries of the ceiling, none of them denied, and systemctl only with a verb of the ceiling; after a failed read nothing is accepted |

## Left out

- SQL, sessions, migrations, full-text and vector search: a table is a sequence or a map of rows, and each operation is one transaction. Row columns that no property reads (results, last errors, completion times of remediations, hosts, change records) are not modelled.
- Deleting the oldest outbox files over the size limit, unreadable files and lines, and fsync: no run of the outbox evicts a file or fails to read one. File names are numbers in creation order.
- Outbox.NothingVanishesUnreplayed: an event counts as handed over when replay is called on it; one whose replay raises is logged and skipped, as in the program.
- OutboxPasses.HandedOverExactlyOnce: counts the same calls.
- Replay.ReplayedAsIfOnline: the start time of the row and the times of its events are the database's at replay, and are not part of what is compared.
- A database call that raises is taken to have changed nothing: a commit whose answer is lost is not modelled.
- DeepIngest.SecondRowExactly: the outbox is a list here, whose oldest entry is handed over or skipped and may come back; its files, numbers and marks are the outbox's own model.
- DeepIngest.ResumedExactly: outcomes that other investigations write are not in the runs; none of them is under a deep report's row unless their own start was skipped.
- `_is_query_rejection`, the health monitor's timing and the hold on replay while the schema is incomplete: whether a call reaches the database is a parameter of the call.
- The regular expressions for identifiers, target normalization and host matching in the dedupe tiers: abstract functions. The model step (`dedupe_model.py`), the second attempt on a stale snapshot and the mutation judge are not part of this model.
- Dedupe.AskingAgain: asks with the same NotReady nodes; a node that recovers in between changes the question.
- RemediationRuns.ClaimsAreGranted: feeds are taken to leave the confirmed-command source alone, and executor completions to write one of the statuses the executor has; the completion route itself writes any status the table's check admits.
- RemediationQueue.Queue.ClaimNext: ties in priority and age may be broken either way by the database; the method takes the lowest id, the steps allow any.
- Spawning Jobs, generating plans, opening change records: the drainer's decision to release, fail, park or hand off a claim is a choice of step.
- HostWrite.RunsOnlyAsApproved: question ids are fresh (`uuid4`); what `run_confirmed` then does is the queue's confirmed command.
- ChatStop.NoOrphanQuestion: polling, persistence and the stream's contents are not modelled; a question whose event the worker never consumed is answered only by its own timeout.
- DeepIngest.OneRowPerAlert: what storing a report does beyond the row's outcome (embedding, queueing, PRs) is not modelled, and a report's outcome is taken never to be `in_progress` or `failed`.
- JSON rendering of an alert's details, labels and remaining fields, and `str()` of a field: the texts are given. Tool results and `frame_label` use the same frame and add no state.
- Rounding of the average delta to one decimal, and base names of pods: the average is exact, and base names are an abstract function. `correlation_details` keeps no more than the count.
- MD5 keys of the embedding cache: a key is an opaque value.
- `shlex` tokenizing and the metacharacter set of the node-action plan: an abstract reader of commands.
- Per-provider state and cooldown arithmetic in agent/llm_fallback.py, reading the breaker's configuration, and everything about HTTP, metrics, tracing, logging and authorization.
