/** Stopping a chat that waits on a host-write question (web_server.py: `run_chat`,
    `api_chat_stop`, `api_chat_confirm`). */
module ChatStop {
  import opened Wrappers
  import opened HostWrite
  import opened Text

  /** What the worker reads from the turn's stream; `Terminal` is `done` or `error`, and
      `Stopped` the last event that the worker writes itself after a stop. */
  datatype StreamEvent = Confirm(cid: Cid) | Terminal | Plain | Stopped

  /** A chat session as the routes share it. */
  datatype Session = Session(events: seq<StreamEvent>, done: bool, cancelled: bool, confirms: set<Cid>)

  const NEW_SESSION := Session([], false, false, {})

  /** The worker's handling of one event, under the sessions lock. */
  function Delivered(s: Session, evt: StreamEvent): Session {
    if s.cancelled then s.(events := s.events + [Stopped], done := true)
    else s.(events := s.events + [evt],
            confirms := if evt.Confirm? && evt.cid != "" then s.confirms + {evt.cid} else s.confirms,
            done := s.done || evt.Terminal?)
  }

  /** The question that the worker declines by itself while handling an event. */
  function DeclinedBy(s: Session, evt: StreamEvent): set<Cid> {
    if s.cancelled && evt.Confirm? && evt.cid != "" then {evt.cid} else {}
  }

  // ---- the program ------------------------------------------------------------------

  /** The table after some of its questions have been declined; the first answer wins. */
  function DeclinedIn(table: map<Cid, Option<Answer>>, pending: set<Cid>, actor: string, now: int): map<Cid, Option<Answer>> {
    map cid | cid in table ::
      if cid in pending && table[cid].None? then Some(Answer(false, NameOf(actor), now, "stopped")) else table[cid]
  }

  lemma DeclinedTwice(table: map<Cid, Option<Answer>>, first: set<Cid>, then_: set<Cid>, actor: string, now: int)
    ensures DeclinedIn(DeclinedIn(table, first, actor, now), then_, actor, now) == DeclinedIn(table, first + then_, actor, now)
  {
  }

  /** `after` is `before` with the questions of `pending` that waited declined by `actor` at `now`,
      because the chat was stopped. */
  ghost predicate OnlyDeclines(before: map<Cid, Option<Answer>>, after: map<Cid, Option<Answer>>, pending: set<Cid>,
                               actor: string, now: int) {
    && after.Keys == before.Keys
    && forall cid :: cid in before ==>
         if cid in pending && before[cid].None?
         then && after[cid].Some? && !after[cid].value.approved && after[cid].value.decidedAt == now
              && after[cid].value.why == "stopped"
              && after[cid].value.approver == (if Strip(actor) == "" then "unknown" else Strip(actor))
         else after[cid] == before[cid]
  }

  lemma DeclinesMean(table: map<Cid, Option<Answer>>, pending: set<Cid>, actor: string, now: int)
    ensures OnlyDeclines(table, DeclinedIn(table, pending, actor, now), pending, actor, now)
    ensures pending == {} ==> DeclinedIn(table, pending, actor, now) == table
  {
  }

  method DeclineOne(cid: Cid, table: PendingConfirms, actor: string, now: int)
    requires table.Valid()
    modifies table.items.Values
    ensures table.Valid() && table.items == old(table.items)
    ensures table.View() == DeclinedIn(old(table.View()), {cid}, actor, now)
    ensures OnlyDeclines(old(table.View()), table.View(), {cid}, actor, now)
  {
    var _ := table.Resolve(cid, false, actor, "stopped", now);
  }

  class ChatSession {
    var events: seq<StreamEvent>
    var done: bool
    var cancelled: bool
    var confirms: set<Cid>

    function View(): Session
      reads this
    {
      Session(events, done, cancelled, confirms)
    }

    constructor ()
      ensures View() == NEW_SESSION
    {
      events, done, cancelled, confirms := [], false, false, {};
    }

    /** One turn of the worker's loop; true when the worker returns. */
    method Deliver(evt: StreamEvent, table: PendingConfirms, actor: string, now: int) returns (finished: bool)
      requires table.Valid()
      modifies this, table.items.Values
      ensures table.Valid() && table.items == old(table.items)
      ensures View() == Delivered(old(View()), evt)
      ensures finished <==> old(cancelled)
      ensures table.View() == DeclinedIn(old(table.View()), DeclinedBy(old(View()), evt), actor, now)
      ensures OnlyDeclines(old(table.View()), table.View(),
                           if old(cancelled) && evt.Confirm? && evt.cid != "" then {evt.cid} else {}, actor, now)
      ensures cancelled == old(cancelled)
      ensures cancelled ==> events == old(events) + [Stopped] && done && confirms == old(confirms)
      ensures !cancelled ==> events == old(events) + [evt] && (done <==> old(done) || evt.Terminal?)
      ensures !cancelled ==> confirms == old(confirms) + (if evt.Confirm? && evt.cid != "" then {evt.cid} else {})
    {
      DeclinesMean(table.View(), DeclinedBy(View(), evt), actor, now);
      if cancelled {
        if evt.Confirm? && evt.cid != "" {
          DeclineOne(evt.cid, table, actor, now);
        }
        events, done := events + [Stopped], true;
        return true;
      }
      events := events + [evt];
      if evt.Confirm? && evt.cid != "" {
        confirms := confirms + {evt.cid};
      }
      if evt.Terminal? {
        done := true;
      }
      return false;
    }

    /** The locked part of Stop: the questions to decline, or None when the turn was over. */
    method Stop() returns (pending: Option<set<Cid>>)
      modifies this`cancelled
      ensures pending == if done then None else Some(confirms)
      ensures cancelled == (old(cancelled) || !done)
    {
      if done {
        return None;
      }
      cancelled := true;
      return Some(confirms);
    }
  }

  /** The rest of Stop: decline what the snapshot holds. */
  method DeclineAll(pending: set<Cid>, table: PendingConfirms, actor: string, now: int)
    requires table.Valid()
    modifies table.items.Values
    ensures table.Valid() && table.items == old(table.items)
    ensures table.View() == DeclinedIn(old(table.View()), pending, actor, now)
    ensures OnlyDeclines(old(table.View()), table.View(), pending, actor, now)
  {
    var rest := pending;
    while rest != {}
      invariant rest <= pending
      invariant table.Valid() && table.items == old(table.items)
      invariant table.View() == DeclinedIn(old(table.View()), pending - rest, actor, now)
    {
      var cid :| cid in rest;
      DeclineOne(cid, table, actor, now);
      DeclinedTwice(old(table.View()), pending - rest, {cid}, actor, now);
      assert pending - (rest - {cid}) == pending - rest + {cid};
      rest := rest - {cid};
    }
  }

  /** A question that a stop declines, in time to be told 'ok', never runs on the host, whatever
      else happens before and after: its call ends without an answer or as declined by the one
      who stopped the chat. */
  lemma StoppedNeverRuns(run: seq<HostWrite.Step>, j: nat, cid: Cid, actor: string, now: int)
    requires HostWrite.Possible(run) && j < |run|
    requires run[j] == HostWrite.Step.Resolve(cid, false, actor, "stopped", now)
    requires HostWrite.OkAt(run, j, cid)
    ensures HostWrite.Runs(HostWrite.HistoryOf(run, cid)) == 0
    ensures forall e :: e in HostWrite.HistoryOf(run, cid) && e.Declined? ==> e.who == NameOf(actor)
  {
    HostWrite.DeclinedNeverRuns(run, j, cid);
  }

  // ---- interleavings -------------------------------------------------------------------

  datatype Worker = Running | Finished

  /** The questions asked, the confirm events the worker has consumed, the questions that still
      wait for an answer, and what each Stop in progress has yet to decline. `session` is None
      once a poll has cleaned the finished session up. */
  datatype Turn = Turn(session: Option<Session>, worker: Worker, asked: set<Cid>, consumed: set<Cid>,
                         waiting: set<Cid>, stops: seq<set<Cid>>)

  /** `AnswerArrives` is an admin's answer through the confirm route, and `GiveUp` the asking call's own
      end: its wait expires, or it closes the question. */
  datatype Step =
    | Ask(cid: Cid)
    | Consume(evt: StreamEvent)
    | StreamEnds
    | StreamRaises
    | CleanUp
    | StopBegins
    | StopDeclines(k: nat, cid: Cid)
    | AnswerArrives(cid: Cid)
    | GiveUp(cid: Cid)

  const START := Turn(Some(NEW_SESSION), Running, {}, {}, {}, [])

  predicate Enabled(s: Turn, step: Step) {
    match step
    case Ask(cid) => cid != "" && cid !in s.asked
    case Consume(evt) =>
      && s.worker.Running? && !evt.Stopped?
      && (evt.Confirm? ==> evt.cid in s.asked && evt.cid !in s.consumed)
    case StreamEnds => s.worker.Running?
    case StreamRaises => s.worker.Running?
    case CleanUp => s.session.Some? && s.session.value.done
    case StopBegins => true
    case StopDeclines(k, cid) => k < |s.stops| && cid in s.stops[k]
    case AnswerArrives(_) => true
    case GiveUp(cid) => cid in s.asked
  }

  function Next(s: Turn, step: Step): Turn
    requires Enabled(s, step)
  {
    match step
    case Ask(cid) => s.(asked := s.asked + {cid}, waiting := s.waiting + {cid})
    case Consume(evt) =>
      var consumed := if evt.Confirm? then s.consumed + {evt.cid} else s.consumed;
      if s.session.None? then s.(worker := Finished, consumed := consumed)
      else
        var session := s.session.value;
        s.(session := Some(Delivered(session, evt)), consumed := consumed,
           waiting := s.waiting - DeclinedBy(session, evt),
           worker := if session.cancelled then Finished else Running)
    case StreamEnds => s.(worker := Finished)
    case StreamRaises =>
      s.(worker := Finished,
         session := if s.session.Some? then Some(s.session.value.(events := s.session.value.events + [Terminal], done := true))
                    else None)
    case CleanUp => s.(session := None)
    case StopBegins =>
      if s.session.None? || s.session.value.done then s
      else s.(session := Some(s.session.value.(cancelled := true)), stops := s.stops + [s.session.value.confirms])
    case StopDeclines(k, cid) => s.(stops := s.stops[k := s.stops[k] - {cid}], waiting := s.waiting - {cid})
    case AnswerArrives(cid) =>
      if s.session.Some? && cid in s.session.value.confirms then s.(waiting := s.waiting - {cid}) else s
    case GiveUp(cid) => s.(waiting := s.waiting - {cid})
  }

  /** What a step does to a question: asking makes it wait; giving up, a Stop that has it, an answer
      that the session knows, and the event of a stopped turn end that, and nothing else does. */
  lemma WaitingExactly(s: Turn, step: Step, cid: Cid)
    requires Enabled(s, step)
    ensures cid in Next(s, step).waiting <==>
              && (cid in s.waiting || step == Ask(cid))
              && step != GiveUp(cid) && !(step.StopDeclines? && step.cid == cid)
              && (s.session.Some? ==>
                    && !(step == AnswerArrives(cid) && cid in s.session.value.confirms)
                    && !(step == Consume(Confirm(cid)) && cid != "" && s.session.value.cancelled))
  {
  }

  /** And to the session: done by its last event, by an exception and by the event after a stop;
      cancelled by a stop that does not find it done; gone only by the clean-up. */
  lemma SessionExactly(s: Turn, step: Step, cid: Cid)
    requires Enabled(s, step)
    ensures Next(s, step).session.Some? <==> s.session.Some? && !step.CleanUp?
    ensures s.session.Some? && !step.CleanUp? ==>
              var before, after := s.session.value, Next(s, step).session.value;
              && (after.done <==> before.done || step.StreamRaises? || (step.Consume? && (before.cancelled || step.evt.Terminal?)))
              && (after.cancelled <==> before.cancelled || (step.StopBegins? && !before.done))
              && (cid in after.confirms <==> cid in before.confirms
                                             || (step == Consume(Confirm(cid)) && cid != "" && !before.cancelled))
              && after.events == before.events + (if step.StreamRaises? then [Terminal]
                                                  else if !step.Consume? then []
                                                  else if before.cancelled then [Stopped] else [step.evt])
  {
  }

  function After(run: seq<Step>): Turn {
    if run == [] then START
    else
      var before := After(run[..|run| - 1]);
      if Enabled(before, run[|run| - 1]) then Next(before, run[|run| - 1]) else before
  }

  predicate Possible(run: seq<Step>) {
    run == [] || (Possible(run[..|run| - 1]) && Enabled(After(run[..|run| - 1]), run[|run| - 1]))
  }

  /** A Stop has taken effect: the run has set the flag. */
  predicate HasStopped(run: seq<Step>) {
    exists i :: 0 <= i <= |run| && CancelledIn(After(run[..i]))
  }

  predicate CancelledIn(s: Turn) {
    s.session.Some? && s.session.value.cancelled
  }

  predicate Pending(s: Turn, cid: Cid) {
    exists k :: 0 <= k < |s.stops| && cid in s.stops[k]
  }

  /** Before a stop, the session's set is exactly what the worker has consumed while the session
      existed; after it, whatever was consumed and still waits is in some Stop's hands. */
  predicate Inv(s: Turn, stopped: bool) {
    && s.consumed <= s.asked && "" !in s.asked
    && (s.session.Some? ==> s.session.value.cancelled == stopped)
    && (s.session.Some? && !stopped ==> s.session.value.confirms == s.consumed)
    && (s.session.None? && stopped ==> s.worker.Finished?)
    && (stopped && s.session.Some? && s.session.value.done ==> s.worker.Finished?)
    && (stopped ==> forall cid :: cid in s.consumed && cid in s.waiting ==> Pending(s, cid))
  }

  lemma StopBeginsKeeps(s: Turn, stopped: bool)
    requires Inv(s, stopped)
    ensures Inv(Next(s, StopBegins), stopped || CancelledIn(Next(s, StopBegins)))
  {
    var after := Next(s, StopBegins);
    if after != s {
      forall cid | cid in after.consumed && cid in after.waiting
        ensures Pending(after, cid)
      {
        if stopped {
          var k :| 0 <= k < |s.stops| && cid in s.stops[k];
          assert after.stops[k] == s.stops[k];
        } else {
          assert cid in after.stops[|s.stops|];
        }
      }
    }
  }

  lemma StopDeclinesKeeps(s: Turn, k: nat, c: Cid, stopped: bool)
    requires Inv(s, stopped) && k < |s.stops| && c in s.stops[k]
    ensures Inv(Next(s, StopDeclines(k, c)), stopped)
  {
    var after := Next(s, StopDeclines(k, c));
    if stopped {
      forall cid | cid in after.consumed && cid in after.waiting
        ensures Pending(after, cid)
      {
        var i :| 0 <= i < |s.stops| && cid in s.stops[i];
        assert cid in after.stops[i];
      }
    }
  }

  lemma StepKeepsInv(s: Turn, step: Step, stopped: bool)
    requires Enabled(s, step) && Inv(s, stopped)
    ensures Inv(Next(s, step), stopped || CancelledIn(Next(s, step)))
  {
    var after := Next(s, step);
    match step
    case StopBegins => StopBeginsKeeps(s, stopped);
    case StopDeclines(k, c) => StopDeclinesKeeps(s, k, c, stopped);
    case _ =>
      assert after.stops == s.stops;
      assert forall cid :: Pending(s, cid) ==> Pending(after, cid);
  }

  lemma {:induction false} StoppedStep(run: seq<Step>)
    requires run != []
    ensures HasStopped(run) <==> HasStopped(run[..|run| - 1]) || CancelledIn(After(run))
  {
    var before := run[..|run| - 1];
    assert forall i :: 0 <= i <= |before| ==> before[..i] == run[..i];
    assert run[..|run|] == run;
  }

  lemma {:induction false} RunKeepsInv(run: seq<Step>)
    requires Possible(run)
    ensures Inv(After(run), HasStopped(run))
    decreases |run|
  {
    if run == [] {
      assert forall i :: 0 <= i <= |run| ==> run[..i] == [];
    } else {
      RunKeepsInv(run[..|run| - 1]);
      StoppedStep(run);
      StepKeepsInv(After(run[..|run| - 1]), run[|run| - 1], HasStopped(run[..|run| - 1]));
    }
  }

  /** Stop leaves no orphan: in every interleaving, once a Stop has taken effect and the worker
      and every Stop have finished, each question whose event the worker consumed is answered;
      what may still wait are only questions whose event it never got to. */
  lemma NoOrphanQuestion(run: seq<Step>, cid: Cid)
    requires Possible(run) && HasStopped(run)
    requires After(run).worker.Finished?
    requires forall k :: 0 <= k < |After(run).stops| ==> After(run).stops[k] == {}
    ensures cid in After(run).consumed ==> cid !in After(run).waiting
  {
    RunKeepsInv(run);
  }

  /** From the moment a Stop has taken effect, no question is added to the session's set, and
      the next event that the worker takes is its last. */
  lemma NothingAddedAfterStop(run: seq<Step>, step: Step)
    requires Possible(run) && HasStopped(run) && Enabled(After(run), step)
    ensures var before, after := After(run), Next(After(run), step);
            && (before.session.Some? && after.session.Some? ==> after.session.value.confirms == before.session.value.confirms)
            && (step.Consume? ==> before.session.Some? && after.worker.Finished?
                                  && after.session.value.events == before.session.value.events + [Stopped])
  {
    RunKeepsInv(run);
  }

  lemma RunOf(run: seq<Step>, step: Step)
    ensures Enabled(After(run), step) ==> After(run + [step]) == Next(After(run), step)
    ensures Possible(run + [step]) <==> Possible(run) && Enabled(After(run), step)
  {
    assert (run + [step])[..|run|] == run;
  }

  /** A question whose event is never consumed is left to its own timeout: the stream ends under
      a worker that was stopped before it read the event. */
  lemma UnconsumedQuestionWaits(cid: Cid)
    requires cid != ""
    ensures var run := [StopBegins] + [Ask(cid)] + [StreamEnds];
            && Possible(run) && HasStopped(run) && After(run).worker.Finished?
            && cid in After(run).waiting && cid !in After(run).consumed
  {
    RunOf([], StopBegins);
    assert [] + [StopBegins] == [StopBegins];
    RunOf([StopBegins], Ask(cid));
    RunOf([StopBegins] + [Ask(cid)], StreamEnds);
    var run := [StopBegins] + [Ask(cid)] + [StreamEnds];
    assert run[..1] == [StopBegins];
  }
}
