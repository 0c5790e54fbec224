/** Questions put to an administrator before a command runs on a host (agent/host_write.py): the
    table of pending questions, one turn's confirmer, and every interleaving of the asking
    threads, the answers and the timeouts. */
module HostWrite {
  import opened Wrappers
  import opened Text

  /** A question's id, unique for each question. */
  type Cid = string

  datatype Answer = Answer(approved: bool, approver: string, decidedAt: int, why: string)
  datatype Reply = Ok | Unknown | AlreadyAnswered

  function NameOf(approver: string): (name: string)
    ensures name != "" && (Strip(approver) != "" ==> name == Strip(approver))
    ensures Strip(approver) == "" ==> name == "unknown"
  {
    if Strip(approver) == "" then "unknown" else Strip(approver)
  }

  /** What `resolve` answers, and the question's entry afterwards. */
  function Resolution(entry: Option<Option<Answer>>, answer: Answer): (Reply, Option<Option<Answer>>) {
    match entry
    case None => (Unknown, None)
    case Some(Some(_)) => (AlreadyAnswered, entry)
    case Some(None) => (Ok, Some(Some(answer)))
  }

  // ---- the program ---------------------------------------------------------------

  /** One question, shared by the thread that waits and the table that is answered through. */
  class Pending {
    var isSet: bool
    var approved: bool
    var approver: string
    var decidedAt: Option<int>
    var why: string

    constructor ()
      ensures !isSet && !approved && approver == "" && decidedAt == None && why == ""
    {
      isSet, approved, approver, decidedAt, why := false, false, "", None, "";
    }

    predicate Valid()
      reads this
    {
      isSet ==> decidedAt.Some?
    }

    function View(): Option<Answer>
      requires Valid()
      reads this
    {
      if isSet then Some(Answer(approved, approver, decidedAt.value, why)) else None
    }
  }

  class PendingConfirms {
    var items: map<Cid, Pending>

    /** Two questions never share an entry. */
    ghost predicate Valid()
      reads this, items.Values
    {
      && (forall cid :: cid in items ==> items[cid].Valid())
      && (forall a, b :: a in items && b in items && a != b ==> items[a] != items[b])
    }

    ghost function View(): map<Cid, Option<Answer>>
      requires Valid()
      reads this, items.Values
    {
      map cid | cid in items :: items[cid].View()
    }

    constructor ()
      ensures Valid() && View() == map[]
    {
      items := map[];
    }

    /** `cid` is the fresh id that the caller drew. */
    method Open(cid: Cid) returns (entry: Pending)
      requires Valid() && cid !in items
      modifies this
      ensures Valid() && fresh(entry) && cid in items && items[cid] == entry
      ensures View() == old(View())[cid := None]
    {
      entry := new Pending();
      items := items[cid := entry];
    }

    /** The entry itself lives on with the thread that waits on it. */
    method Close(cid: Cid)
      requires Valid()
      modifies this
      ensures Valid() && View() == old(View()) - {cid}
    {
      items := items - {cid};
    }

    method IsOpen(cid: Cid) returns (open: bool)
      requires Valid()
      ensures open <==> cid in View() && View()[cid].None?
    {
      open := cid in items && !items[cid].isSet;
    }

    method Resolve(cid: Cid, approved: bool, approver: string, why: string, now: int) returns (reply: Reply)
      requires Valid()
      modifies if cid in items then {items[cid]} else {}
      ensures Valid() && items == old(items)
      ensures var entry := if cid in old(View()) then Some(old(View())[cid]) else None;
              var after := Resolution(entry, Answer(approved, NameOf(approver), now, why));
              && reply == after.0
              && View() == if after.1.Some? then old(View())[cid := after.1.value] else old(View())
      ensures reply.Unknown? <==> cid !in items
      ensures reply.Ok? <==> cid in old(View()) && old(View())[cid].None?
      ensures reply.Ok? ==> cid in View() && View()[cid] == Some(Answer(approved, NameOf(approver), now, why))
      ensures View().Keys == old(View()).Keys
      ensures forall c :: c in View() && (c != cid || !reply.Ok?) ==> View()[c] == old(View())[c]
    {
      if cid !in items {
        return Unknown;
      }
      var entry := items[cid];
      if entry.isSet {
        return AlreadyAnswered;
      }
      entry.approved, entry.approver, entry.decidedAt, entry.why := approved, NameOf(approver), Some(now), why;
      entry.isSet := true;
      return Ok;
    }
  }

  // ---- interleavings ---------------------------------------------------------------

  /** Where the call that asked a question is: about to announce it; waiting; done waiting, with
      an answer or without; ended by a failed announcement; the same with the question closed;
      decided; or gone. */
  datatype Phase =
    | Asking | Waiting | Woken(answered: bool) | Raised
    | Closed(answered: bool) | ClosedRaised | Decided | Left

  /** What happened to a question: an answer was told 'ok'; the confirmed command was run, under
      this name and time; nothing was run, for one of three reasons. */
  datatype Event =
    | Accepted(answer: Answer)
    | Ran(approver: string, decidedAt: int)
    | Declined(who: string)
    | TimedOut
    | Broken

  /** One question: whether the table still has it, its entry, its call, and its history. */
  datatype Call = Call(open: bool, answer: Option<Answer>, phase: Phase, history: seq<Event>)

  /** `entered` counts the calls that have entered and not yet opened their question. */
  datatype State = State(entered: nat, busy: int, calls: map<Cid, Call>)

  /** `Decide` carries whether announcing the outcome succeeds: if it raises, nothing runs. */
  datatype Step =
    | Enter
    | Open(cid: Cid)
    | Announce(cid: Cid, succeeds: bool)
    | Wake(cid: Cid)
    | Expire(cid: Cid)
    | Close(cid: Cid)
    | Decide(cid: Cid, announced: bool)
    | Leave(cid: Cid)
    | Resolve(cid: Cid, approved: bool, approver: string, why: string, now: int)

  const START := State(0, 0, map[])

  function AnswerIn(step: Step): Answer
    requires step.Resolve?
  {
    Answer(step.approved, NameOf(step.approver), step.now, step.why)
  }

  function Entry(s: State, cid: Cid): Option<Option<Answer>> {
    if cid in s.calls && s.calls[cid].open then Some(s.calls[cid].answer) else None
  }

  function ReplyTo(s: State, step: Step): Reply
    requires step.Resolve?
  {
    Resolution(Entry(s, step.cid), AnswerIn(step)).0
  }

  /** When a call may take a step of its own. A timeout is the wait's own verdict: nothing had
      been set when it gave up. */
  predicate Ready(c: Call, step: Step) {
    match step
    case Announce(_, _) => c.phase.Asking?
    case Wake(_) => c.phase.Waiting? && c.answer.Some?
    case Expire(_) => c.phase.Waiting? && c.answer.None?
    case Close(_) => c.phase.Woken? || c.phase.Raised?
    case Decide(_, _) => c.phase.Closed? || c.phase.ClosedRaised?
    case Leave(_) => c.phase.Decided?
    case _ => false
  }

  predicate Enabled(s: State, step: Step) {
    match step
    case Enter => true
    case Open(cid) => 0 < s.entered && cid !in s.calls
    case Resolve(_, _, _, _, _) => true
    case _ => step.cid in s.calls && Ready(s.calls[step.cid], step)
  }

  /** What the call does once its question is closed. */
  function Verdict(c: Call, announced: bool): Event {
    if !announced || c.phase.ClosedRaised? then Broken
    else if c.phase == Closed(true) && c.answer.Some? then
      if c.answer.value.approved then Ran(c.answer.value.approver, c.answer.value.decidedAt)
      else Declined(c.answer.value.approver)
    else TimedOut
  }

  /** One turn's confirmer: the counter of calls in progress, and the end of a call, once the
      wait is over and the question is closed. */
  class HostWriteConfirmer {
    var calls: int

    constructor ()
      ensures calls == 0
    {
      calls := 0;
    }

    method Enter()
      modifies this
      ensures calls == old(calls) + 1
    {
      calls := calls + 1;
    }

    method Leave()
      modifies this
      ensures calls == old(calls) - 1
    {
      calls := calls - 1;
    }

    method Conclude(entry: Pending, answered: bool, announced: bool) returns (outcome: Event)
      requires entry.Valid() && (answered ==> entry.isSet)
      ensures outcome == Verdict(Call(false, entry.View(), Closed(answered), []), announced)
      ensures outcome.Broken? <==> !announced
      ensures outcome.TimedOut? <==> announced && !answered
      ensures outcome.Ran? <==> announced && answered && entry.approved
      ensures outcome.Ran? ==> outcome.approver == entry.approver && Some(outcome.decidedAt) == entry.decidedAt
      ensures outcome.Declined? ==> outcome.who == entry.approver && !entry.approved
    {
      if !announced {
        return Broken;
      }
      if !answered {
        return TimedOut;
      }
      if !entry.approved {
        return Declined(entry.approver);
      }
      return Ran(entry.approver, entry.decidedAt.value);
    }
  }

  function CallAfter(c: Call, step: Step): Call
    requires Ready(c, step)
  {
    match step
    case Announce(_, succeeds) => c.(phase := if succeeds then Waiting else Raised)
    case Wake(_) => c.(phase := Woken(true))
    case Expire(_) => c.(phase := Woken(false))
    case Close(_) => c.(open := false, phase := if c.phase.Raised? then ClosedRaised else Closed(c.phase.answered))
    case Decide(_, announced) => c.(phase := Decided, history := c.history + [Verdict(c, announced)])
    case Leave(_) => c.(phase := Left)
  }

  function Next(s: State, step: Step): State
    requires Enabled(s, step)
  {
    match step
    case Enter => s.(entered := s.entered + 1, busy := s.busy + 1)
    case Open(cid) => s.(entered := s.entered - 1, calls := s.calls[cid := Call(true, None, Asking, [])])
    case Resolve(cid, _, _, _, _) =>
      if ReplyTo(s, step).Ok? then
        var c := s.calls[cid];
        s.(calls := s.calls[cid := c.(answer := Some(AnswerIn(step)), history := c.history + [Accepted(AnswerIn(step))])])
      else s
    case _ =>
      State(s.entered, if step.Leave? then s.busy - 1 else s.busy,
            s.calls[step.cid := CallAfter(s.calls[step.cid], step)])
  }

  function After(run: seq<Step>): State {
    if run == [] then START
    else
      var before := After(run[..|run| - 1]);
      if Enabled(before, run[|run| - 1]) then Next(before, run[|run| - 1]) else before
  }

  predicate Possible(run: seq<Step>) {
    run == [] || (Possible(run[..|run| - 1]) && Enabled(After(run[..|run| - 1]), run[|run| - 1]))
  }

  // ---- the invariant -----------------------------------------------------------------

  predicate InTable(phase: Phase) {
    phase.Asking? || phase.Waiting? || phase.Woken? || phase.Raised?
  }

  predicate Ended(phase: Phase) {
    phase.Decided? || phase.Left?
  }

  function AcceptedIn(c: Call): seq<Event> {
    if c.answer.Some? then [Accepted(c.answer.value)] else []
  }

  /** The one verdict that fits an entry and whether the wait expired. */
  predicate Fits(c: Call, expired: bool, verdict: Event) {
    match verdict
    case Ran(approver, decidedAt) =>
      !expired && c.answer.Some? && c.answer.value.approved
      && approver == c.answer.value.approver && decidedAt == c.answer.value.decidedAt
    case Declined(who) => !expired && c.answer.Some? && !c.answer.value.approved && who == c.answer.value.approver
    case TimedOut => expired
    case Broken => true
    case Accepted(_) => false
  }

  /** A question's history is its accepted answer, if any, and then its verdict, if it ended. */
  predicate CallInv(c: Call, expired: bool) {
    && c.open == InTable(c.phase)
    && match c.phase {
         case Woken(answered) => expired == !answered && (answered ==> c.answer.Some?) && c.history == AcceptedIn(c)
         case Closed(answered) => expired == !answered && (answered ==> c.answer.Some?) && c.history == AcceptedIn(c)
         case Decided => EndedWell(c, expired)
         case Left => EndedWell(c, expired)
         case _ => !expired && c.history == AcceptedIn(c)
       }
  }

  predicate EndedWell(c: Call, expired: bool) {
    && |c.history| == |AcceptedIn(c)| + 1
    && c.history[..|AcceptedIn(c)|] == AcceptedIn(c)
    && Fits(c, expired, c.history[|AcceptedIn(c)|])
  }

  predicate EverExpired(run: seq<Step>, cid: Cid) {
    exists i :: 0 <= i < |run| && run[i] == Expire(cid)
  }

  predicate StateInv(s: State, cid: Cid, expired: bool) {
    if cid in s.calls then CallInv(s.calls[cid], expired) else !expired
  }

  lemma DecidesWell(c: Call, announced: bool, expired: bool)
    requires (c.phase.Closed? || c.phase.ClosedRaised?) && CallInv(c, expired)
    ensures EndedWell(c.(phase := Decided, history := c.history + [Verdict(c, announced)]), expired)
  {
    var verdict := Verdict(c, announced);
    assert Fits(c, expired, verdict);
    assert (c.history + [verdict])[..|c.history|] == c.history;
  }

  lemma CallKeepsInv(c: Call, step: Step, expired: bool)
    requires Ready(c, step) && CallInv(c, expired)
    ensures CallInv(CallAfter(c, step), expired || step.Expire?)
  {
    if step.Decide? {
      DecidesWell(c, step.announced, expired);
    }
  }

  lemma StepKeepsInv(s: State, step: Step, cid: Cid, expired: bool)
    requires Enabled(s, step) && StateInv(s, cid, expired)
    ensures StateInv(Next(s, step), cid, expired || step == Expire(cid))
  {
    match step
    case Enter =>
    case Open(_) =>
    case Resolve(_, _, _, _, _) =>
    case _ =>
      if step.cid == cid {
        CallKeepsInv(s.calls[cid], step, expired);
      }
  }

  lemma EverExpiredStep(run: seq<Step>, cid: Cid)
    requires run != []
    ensures EverExpired(run, cid) <==> EverExpired(run[..|run| - 1], cid) || run[|run| - 1] == Expire(cid)
  {
    var before := run[..|run| - 1];
    if i :| 0 <= i < |before| && before[i] == Expire(cid) {
      assert run[i] == Expire(cid);
    }
  }

  lemma {:induction false} RunKeepsInv(run: seq<Step>, cid: Cid)
    requires Possible(run)
    ensures StateInv(After(run), cid, EverExpired(run, cid))
    decreases |run|
  {
    if run != [] {
      var before, step := run[..|run| - 1], run[|run| - 1];
      RunKeepsInv(before, cid);
      StepKeepsInv(After(before), step, cid, EverExpired(before, cid));
      EverExpiredStep(run, cid);
    }
  }

  // ---- busy --------------------------------------------------------------------------

  function CallsInFlight(s: State): set<Cid> {
    set cid | cid in s.calls && !s.calls[cid].phase.Left?
  }

  lemma InFlightAfter(s: State, step: Step)
    requires Enabled(s, step)
    ensures CallsInFlight(Next(s, step))
         == if step.Open? then CallsInFlight(s) + {step.cid}
            else if step.Leave? then CallsInFlight(s) - {step.cid} else CallsInFlight(s)
  {
    var expected := if step.Open? then CallsInFlight(s) + {step.cid}
                    else if step.Leave? then CallsInFlight(s) - {step.cid} else CallsInFlight(s);
    forall cid
      ensures cid in CallsInFlight(Next(s, step)) <==> cid in expected
    {
    }
  }

  lemma StepKeepsBusy(s: State, step: Step)
    requires Enabled(s, step) && s.busy == s.entered + |CallsInFlight(s)|
    ensures Next(s, step).busy == Next(s, step).entered + |CallsInFlight(Next(s, step))|
  {
    InFlightAfter(s, step);
    assert step.Leave? ==> step.cid in CallsInFlight(s);
    assert step.Open? ==> step.cid !in CallsInFlight(s);
  }

  /** The busy counter is the number of calls in flight, so it is never negative, and `busy` is
      true exactly while a call is in progress. */
  lemma {:induction false} BusyCountsCalls(run: seq<Step>)
    requires Possible(run)
    ensures After(run).busy == After(run).entered + |CallsInFlight(After(run))|
    decreases |run|
  {
    if run == [] {
      assert CallsInFlight(START) == {};
    } else {
      BusyCountsCalls(run[..|run| - 1]);
      StepKeepsBusy(After(run[..|run| - 1]), run[|run| - 1]);
    }
  }

  // ---- the first answer wins -----------------------------------------------------------

  predicate Answered(s: State, cid: Cid) {
    cid in s.calls && s.calls[cid].answer.Some?
  }

  /** At this point of the run a `resolve` of the question is told 'ok'. */
  predicate OkAt(run: seq<Step>, i: int, cid: Cid) {
    0 <= i < |run| && run[i].Resolve? && run[i].cid == cid && ReplyTo(After(run[..i]), run[i]).Ok?
  }

  lemma {:induction false} AnswersStay(run: seq<Step>, i: nat, cid: Cid)
    requires Possible(run) && i <= |run| && Answered(After(run[..i]), cid)
    ensures Answered(After(run), cid) && After(run).calls[cid].answer == After(run[..i]).calls[cid].answer
    decreases |run|
  {
    if i == |run| {
      assert run[..i] == run;
    } else {
      var before := run[..|run| - 1];
      assert before[..i] == run[..i];
      AnswersStay(before, i, cid);
    }
  }

  lemma {:induction false} PossiblePrefix(run: seq<Step>, i: nat)
    requires Possible(run) && i <= |run|
    ensures Possible(run[..i])
    decreases |run|
  {
    if i == |run| {
      assert run[..i] == run;
    } else {
      assert run[..|run| - 1][..i] == run[..i];
      PossiblePrefix(run[..|run| - 1], i);
    }
  }

  lemma OkAnswers(run: seq<Step>, i: nat, cid: Cid)
    requires Possible(run) && OkAt(run, i, cid)
    ensures Answered(After(run[..i + 1]), cid) && After(run[..i + 1]).calls[cid].answer == Some(AnswerIn(run[i]))
  {
    assert run[..i + 1][..i] == run[..i];
  }

  lemma OkIsLater(run: seq<Step>, i: nat, j: nat, cid: Cid)
    requires Possible(run) && i < j < |run| && Answered(After(run[..i + 1]), cid)
    ensures !OkAt(run, j, cid) && run[j] != Expire(cid)
  {
    PossiblePrefix(run, j);
    PossiblePrefix(run, j + 1);
    assert run[..j + 1][..j] == run[..j];
    assert run[..j][..i + 1] == run[..i + 1];
    AnswersStay(run[..j], i + 1, cid);
  }

  /** Over a whole run, at most one `resolve` of a question is told 'ok'. */
  lemma AtMostOneOk(run: seq<Step>, i: nat, j: nat, cid: Cid)
    requires Possible(run) && OkAt(run, i, cid) && OkAt(run, j, cid)
    ensures i == j
  {
    if i < j {
      OkAnswers(run, i, cid);
      OkIsLater(run, i, j, cid);
    } else if j < i {
      OkAnswers(run, j, cid);
      OkIsLater(run, j, i, cid);
    }
  }

  /** An entry's answer is one that some `resolve` in the run was told 'ok' for. */
  lemma {:induction false} AnswerWasGiven(run: seq<Step>, cid: Cid)
    requires Possible(run) && Answered(After(run), cid)
    ensures exists i :: OkAt(run, i, cid) && AnswerIn(run[i]) == After(run).calls[cid].answer.value
    decreases |run|
  {
    var before := run[..|run| - 1];
    if Answered(After(before), cid) {
      AnswerWasGiven(before, cid);
      AnswersStay(run, |run| - 1, cid);
      var i :| OkAt(before, i, cid) && AnswerIn(before[i]) == After(before).calls[cid].answer.value;
      assert run[..i] == before[..i];
      assert OkAt(run, i, cid);
    } else {
      assert OkAt(run, |run| - 1, cid);
    }
  }

  // ---- what runs -------------------------------------------------------------------------

  /** How often `run_confirmed` was called for a question. */
  function Runs(history: seq<Event>): nat {
    if history == [] then 0 else Runs(history[..|history| - 1]) + (if history[|history| - 1].Ran? then 1 else 0)
  }

  function HistoryOf(run: seq<Step>, cid: Cid): seq<Event> {
    if cid in After(run).calls then After(run).calls[cid].history else []
  }

  lemma RunsIn(c: Call, expired: bool)
    requires CallInv(c, expired)
    ensures Runs(c.history) == if c.history != [] && c.history[|c.history| - 1].Ran? then 1 else 0
    ensures forall i :: 0 <= i < |c.history| - 1 ==> c.history[i].Accepted?
  {
    var accepted := AcceptedIn(c);
    assert Runs([]) == 0;
    if accepted != [] {
      assert accepted[..0] == [];
      assert Runs(accepted) == 0;
    }
  }

  /** Whatever the interleaving, a confirmed command runs at most once, and only under the name
      and the time of the one approving answer that was told 'ok'; then the question was neither
      declined nor timed out, and the name is not blank. */
  lemma RunsOnlyAsApproved(run: seq<Step>, cid: Cid)
    requires Possible(run)
    ensures Runs(HistoryOf(run, cid)) <= 1
    ensures forall e :: e in HistoryOf(run, cid) && e.Ran? ==>
              && e.approver != ""
              && (exists i :: OkAt(run, i, cid) && run[i].approved
                              && NameOf(run[i].approver) == e.approver && run[i].now == e.decidedAt)
              && forall other :: other in HistoryOf(run, cid) ==> other == e || other.Accepted?
  {
    RunKeepsInv(run, cid);
    if cid in After(run).calls {
      var c := After(run).calls[cid];
      RunsIn(c, EverExpired(run, cid));
      forall e | e in c.history && e.Ran?
        ensures exists i :: OkAt(run, i, cid) && run[i].approved
                            && NameOf(run[i].approver) == e.approver && run[i].now == e.decidedAt
        ensures forall other :: other in c.history ==> other == e || other.Accepted?
      {
        RanAsAnswered(run, cid, e);
      }
    }
  }

  /** A call that ran ended with it, by the answer it holds. */
  lemma RanIsLast(c: Call, expired: bool, e: Event)
    requires CallInv(c, expired) && e in c.history && e.Ran?
    ensures c.answer.Some? && c.answer.value.approved
    ensures e == Ran(c.answer.value.approver, c.answer.value.decidedAt)
    ensures forall other :: other in c.history ==> other == e || other.Accepted?
  {
    RunsIn(c, expired);
    assert e == c.history[|c.history| - 1];
  }

  lemma RanAsAnswered(run: seq<Step>, cid: Cid, e: Event)
    requires Possible(run) && cid in After(run).calls
    requires CallInv(After(run).calls[cid], EverExpired(run, cid)) && e in After(run).calls[cid].history && e.Ran?
    ensures exists i :: OkAt(run, i, cid) && run[i].approved
                        && NameOf(run[i].approver) == e.approver && run[i].now == e.decidedAt
    ensures forall other :: other in After(run).calls[cid].history ==> other == e || other.Accepted?
  {
    RanIsLast(After(run).calls[cid], EverExpired(run, cid), e);
    AnswerWasGiven(run, cid);
  }

  /** A question that was declined never runs, and if its call ends as declined, it is by the one
      who declined it. */
  lemma DeclinedNeverRuns(run: seq<Step>, j: nat, cid: Cid)
    requires Possible(run) && OkAt(run, j, cid) && !run[j].approved
    ensures Runs(HistoryOf(run, cid)) == 0
    ensures forall e :: e in HistoryOf(run, cid) && e.Declined? ==> e.who == NameOf(run[j].approver)
  {
    RunKeepsInv(run, cid);
    OkStays(run, j, cid);
    RunsIn(After(run).calls[cid], EverExpired(run, cid));
  }

  // ---- what a resolve is told ----------------------------------------------------------------

  predicate OpenedIn(run: seq<Step>, cid: Cid) {
    exists i :: 0 <= i < |run| && run[i] == Open(cid)
  }

  predicate ClosedIn(run: seq<Step>, cid: Cid) {
    exists i :: 0 <= i < |run| && run[i] == Close(cid)
  }

  predicate OkIn(run: seq<Step>, cid: Cid) {
    exists i :: 0 <= i < |run| && OkAt(run, i, cid)
  }

  lemma SeenBefore(run: seq<Step>, cid: Cid)
    requires run != []
    ensures var before, step := run[..|run| - 1], run[|run| - 1];
            && (OpenedIn(run, cid) <==> OpenedIn(before, cid) || step == Open(cid))
            && (ClosedIn(run, cid) <==> ClosedIn(before, cid) || step == Close(cid))
            && (OkIn(run, cid) <==> OkIn(before, cid) || OkAt(run, |run| - 1, cid))
  {
    var before, step := run[..|run| - 1], run[|run| - 1];
    assert forall i :: 0 <= i < |before| ==> before[i] == run[i] && before[..i] == run[..i];
    assert forall i :: 0 <= i < |before| ==> OkAt(before, i, cid) == OkAt(run, i, cid);
    if step == Open(cid) || step == Close(cid) {
      assert run[|run| - 1] == step;
    }
  }

  lemma {:induction false} EntryExactly(run: seq<Step>, cid: Cid)
    requires Possible(run)
    ensures cid in After(run).calls <==> OpenedIn(run, cid)
    ensures cid in After(run).calls ==> (After(run).calls[cid].open <==> !ClosedIn(run, cid))
    ensures ClosedIn(run, cid) ==> OpenedIn(run, cid)
    ensures Answered(After(run), cid) <==> OkIn(run, cid)
    decreases |run|
  {
    if run != [] {
      var before, step := run[..|run| - 1], run[|run| - 1];
      EntryExactly(before, cid);
      RunKeepsInv(before, cid);
      SeenBefore(run, cid);
    }
  }

  /** Over every run: a resolve of a question that was never opened, or has been closed, is told
      it is unknown; of one that an earlier resolve was told 'ok' for, that it is answered; and of
      any other, 'ok'. */
  lemma ReplyExactly(run: seq<Step>, step: Step)
    requires Possible(run) && step.Resolve?
    ensures ReplyTo(After(run), step).Unknown? <==> !OpenedIn(run, step.cid) || ClosedIn(run, step.cid)
    ensures ReplyTo(After(run), step).Ok? <==>
              OpenedIn(run, step.cid) && !ClosedIn(run, step.cid) && !OkIn(run, step.cid)
  {
    EntryExactly(run, step.cid);
  }

  lemma ExpiryIsNotLater(run: seq<Step>, j: nat, cid: Cid)
    requires Possible(run) && OkAt(run, j, cid)
    ensures EverExpired(run, cid) <==> exists i :: 0 <= i < j && run[i] == Expire(cid)
  {
    OkAnswers(run, j, cid);
    if i :| 0 <= i < |run| && run[i] == Expire(cid) {
      if j < i {
        OkIsLater(run, j, i, cid);
      }
      assert i < j;
    }
  }

  lemma OkStays(run: seq<Step>, j: nat, cid: Cid)
    requires Possible(run) && OkAt(run, j, cid)
    ensures Answered(After(run), cid) && After(run).calls[cid].answer == Some(AnswerIn(run[j]))
  {
    OkAnswers(run, j, cid);
    AnswersStay(run, j + 1, cid);
  }

  /** Whether an approval that was told 'ok' ran its command, once the call has ended without
      an announcement failing: it ran exactly if the answer came before the wait expired. An
      answer between the expiry and the closing of the question is told 'ok' and runs nothing. */
  lemma OkRanExactly(run: seq<Step>, j: nat, cid: Cid)
    requires Possible(run) && OkAt(run, j, cid) && run[j].approved
    requires cid in After(run).calls && Ended(After(run).calls[cid].phase) && Broken !in HistoryOf(run, cid)
    ensures Runs(HistoryOf(run, cid)) == 1 <==> forall i :: 0 <= i < j ==> run[i] != Expire(cid)
  {
    var c := After(run).calls[cid];
    RunKeepsInv(run, cid);
    RunsIn(c, EverExpired(run, cid));
    OkStays(run, j, cid);
    ExpiryIsNotLater(run, j, cid);
    assert c.history[|c.history| - 1] in c.history;
  }

  lemma RunOf(run: seq<Step>, step: Step)
    ensures Enabled(After(run), step) ==> After(run + [step]) == Next(After(run), step)
    ensures Possible(run + [step]) <==> Possible(run) && Enabled(After(run), step)
  {
    assert (run + [step])[..|run|] == run;
  }

  function Expired(cid: Cid): seq<Step> {
    [Enter] + [Open(cid)] + [Announce(cid, true)] + [Expire(cid)]
  }

  lemma ExpiredRun(cid: Cid)
    ensures Possible(Expired(cid))
    ensures After(Expired(cid)) == State(0, 1, map[cid := Call(true, None, Woken(false), [])])
  {
    RunOf([], Enter);
    assert [] + [Enter] == [Enter];
    RunOf([Enter], Open(cid));
    RunOf([Enter] + [Open(cid)], Announce(cid, true));
    RunOf([Enter] + [Open(cid)] + [Announce(cid, true)], Expire(cid));
  }

  /** The gap exists: an admin's Run lands after the wait has expired and before the question is
      closed, and is told 'ok'. */
  lemma ApprovalLostInGap(cid: Cid, now: int)
    ensures var answer := Resolve(cid, true, "ann", "", now);
            var run := Expired(cid) + [answer] + [Close(cid)] + [Decide(cid, true)];
            && Possible(run)
            && OkAt(run, 4, cid)
            && HistoryOf(run, cid) == [Accepted(AnswerIn(answer)), TimedOut]
  {
    var answer := Resolve(cid, true, "ann", "", now);
    var asked := Expired(cid);
    ExpiredRun(cid);
    RunOf(asked, answer);
    RunOf(asked + [answer], Close(cid));
    RunOf(asked + [answer] + [Close(cid)], Decide(cid, true));
    assert (asked + [answer] + [Close(cid)] + [Decide(cid, true)])[..4] == asked;
  }
}
