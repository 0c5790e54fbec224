/** The whole-chain circuit breaker (agent/llm_fallback.py, `ChainCircuitBreaker`).

    Every method of the original runs under one lock, so a run is a sequence of
    atomic calls. The clock is read inside each call; here it is a parameter.
  */
module CircuitBreaker {

  datatype Config = Config(threshold: int, window: real, cooldown: real) {
    predicate Enabled() {
      threshold > 0
    }
  }

  datatype Circuit = Closed | Open | HalfOpen

  /** What the breaker remembers between calls. */
  datatype Breaker = Breaker(circuit: Circuit, failures: seq<real>, openUntil: real, probing: bool)

  const INITIAL := Breaker(Closed, [], 0.0, false)

  /** The answer of `before_call`: go ahead, or an LLMCircuitOpen carrying a retry time. */
  datatype Verdict = Admitted | Refused(until: real)

  // ---- one call of each method, as a function of the state -----------------

  function AfterBeforeCall(cfg: Config, b: Breaker, now: real): Breaker {
    if !cfg.Enabled() then b
    else if b.circuit.Open? && now < b.openUntil then b
    else if b.circuit.Open? || b.circuit.HalfOpen? then b.(circuit := HalfOpen, probing := true)
    else b
  }

  function BeforeCallVerdict(cfg: Config, b: Breaker, now: real): Verdict {
    if !cfg.Enabled() then Admitted
    else if b.circuit.Open? && now < b.openUntil then Refused(b.openUntil)
    else if b.circuit.HalfOpen? && b.probing then Refused(now + cfg.cooldown)
    else Admitted
  }

  function AfterSuccess(b: Breaker): Breaker {
    b.(circuit := Closed, failures := [], probing := false)
  }

  function AfterReleaseProbe(b: Breaker): Breaker {
    if b.circuit.HalfOpen? then b.(probing := false) else b
  }

  function Opened(cfg: Config, now: real): Breaker {
    Breaker(Open, [], now + cfg.cooldown, false)
  }

  /** Drop the leading times that are not later than `cutoff`; stop at the first that is. */
  function DropStale(times: seq<real>, cutoff: real): seq<real> {
    if times != [] && times[0] <= cutoff then DropStale(times[1..], cutoff) else times
  }

  predicate FailureOpens(cfg: Config, b: Breaker, now: real) {
    && cfg.Enabled()
    && (|| b.circuit.HalfOpen?
        || (b.circuit.Closed? && |DropStale(b.failures + [now], now - cfg.window)| >= cfg.threshold))
  }

  function AfterFailure(cfg: Config, b: Breaker, now: real): Breaker {
    if !cfg.Enabled() || b.circuit.Open? then b
    else if FailureOpens(cfg, b, now) then Opened(cfg, now)
    else b.(failures := DropStale(b.failures + [now], now - cfg.window))
  }

  /** The breaker as the program holds it: fields mutated in place, a deque pruned from the left. */
  class ChainCircuitBreaker {
    const cfg: Config
    var circuit: Circuit
    var failures: seq<real>
    var openUntil: real
    var probing: bool

    function View(): (b: Breaker)
      reads this
    {
      Breaker(circuit, failures, openUntil, probing)
    }

    constructor (cfg: Config)
      ensures this.cfg == cfg && View() == INITIAL
    {
      this.cfg := cfg;
      circuit, failures, openUntil, probing := Closed, [], 0.0, false;
    }

    method BeforeCall(now: real) returns (v: Verdict)
      modifies this
      ensures View() == AfterBeforeCall(cfg, old(View()), now)
      ensures v == BeforeCallVerdict(cfg, old(View()), now)
      ensures v.Refused? <==> cfg.threshold > 0 && ((old(circuit) == Open && now < old(openUntil))
                                                    || (old(circuit) == HalfOpen && old(probing)))
      ensures v.Refused? ==> v.until == (if old(circuit) == Open then old(openUntil) else now + cfg.cooldown)
      ensures v.Refused? ==> View() == old(View())
      ensures v.Admitted? && cfg.threshold > 0 && old(circuit) != Closed ==> circuit == HalfOpen && probing
      ensures cfg.threshold <= 0 || old(circuit) == Closed ==> v.Admitted? && View() == old(View())
      ensures failures == old(failures) && openUntil == old(openUntil)
    {
      if !cfg.Enabled() {
        return Admitted;
      }
      if circuit == Open {
        if now < openUntil {
          return Refused(openUntil);
        }
        circuit, probing := HalfOpen, false;
      }
      if circuit == HalfOpen {
        if probing {
          return Refused(now + cfg.cooldown);
        }
        probing := true;
      }
      return Admitted;
    }

    method RecordSuccess()
      modifies this
      ensures View() == AfterSuccess(old(View()))
      ensures circuit == Closed && failures == [] && !probing && openUntil == old(openUntil)
    {
      circuit, failures, probing := Closed, [], false;
    }

    method RecordFailure(now: real) returns (tripped: bool)
      modifies this
      ensures View() == AfterFailure(cfg, old(View()), now)
      ensures tripped == FailureOpens(cfg, old(View()), now)
      ensures tripped <==> cfg.threshold > 0 && old(circuit) != Open && circuit == Open
      ensures tripped ==> openUntil == now + cfg.cooldown && !probing && failures == []
      ensures !tripped ==> circuit == old(circuit) && openUntil == old(openUntil) && probing == old(probing)
      ensures cfg.threshold > 0 && old(circuit) == HalfOpen ==> tripped
      ensures cfg.threshold <= 0 || old(circuit) == Open ==> View() == old(View())
    {
      if !cfg.Enabled() {
        return false;
      }
      if circuit == HalfOpen {
        Trip(now);
        return true;
      }
      if circuit == Open {
        return false;
      }
      failures := failures + [now];
      ghost var appended := failures;
      while failures != [] && failures[0] <= now - cfg.window
        invariant circuit == old(circuit) && openUntil == old(openUntil) && probing == old(probing)
        invariant DropStale(failures, now - cfg.window) == DropStale(appended, now - cfg.window)
        decreases |failures|
      {
        failures := failures[1..];
      }
      if |failures| >= cfg.threshold {
        Trip(now);
        return true;
      }
      return false;
    }

    method ReleaseProbe()
      modifies this
      ensures View() == AfterReleaseProbe(old(View()))
      ensures probing == (old(probing) && old(circuit) != HalfOpen)
      ensures circuit == old(circuit) && failures == old(failures) && openUntil == old(openUntil)
    {
      if circuit == HalfOpen {
        probing := false;
      }
    }

    method Trip(now: real)
      modifies this
      ensures View() == Opened(cfg, now)
    {
      circuit, openUntil, probing, failures := Open, now + cfg.cooldown, false, [];
    }
  }

  // ---- runs ----------------------------------------------------------------

  datatype Call = BeforeCall | Success | Failure | ReleaseProbe
  datatype Event = Event(call: Call, at: real)

  function Step(cfg: Config, b: Breaker, e: Event): Breaker {
    match e.call
    case BeforeCall => AfterBeforeCall(cfg, b, e.at)
    case Success => AfterSuccess(b)
    case Failure => AfterFailure(cfg, b, e.at)
    case ReleaseProbe => AfterReleaseProbe(b)
  }

  /** The state after a run, from `b`. */
  function Run(cfg: Config, b: Breaker, run: seq<Event>): Breaker {
    if run == [] then b else Step(cfg, Run(cfg, b, run[..|run| - 1]), run[|run| - 1])
  }

  /** The run's clock never goes back, and starts no earlier than `start`. */
  predicate ClockFrom(start: real, run: seq<Event>) {
    && (forall i :: 0 <= i < |run| ==> start <= run[i].at)
    && (forall i, j :: 0 <= i < j < |run| ==> run[i].at <= run[j].at)
  }

  // ---- the sliding window --------------------------------------------------

  predicate Ascending(times: seq<real>) {
    forall i, j :: 0 <= i < j < |times| ==> times[i] <= times[j]
  }

  predicate AscendingUpTo(times: seq<real>, now: real) {
    Ascending(times) && forall i :: 0 <= i < |times| ==> times[i] <= now
  }

  /** The times later than `cutoff`, wherever they stand. */
  function LaterThan(times: seq<real>, cutoff: real): seq<real> {
    if times == [] then []
    else if times[0] > cutoff then [times[0]] + LaterThan(times[1..], cutoff)
    else LaterThan(times[1..], cutoff)
  }

  /** A breaker that never prunes: it keeps every failure since the last success or
      open, and counts those inside the window when a failure arrives. */
  datatype Reference = Reference(circuit: Circuit, history: seq<real>, openUntil: real, probing: bool)

  function ReferenceStep(cfg: Config, r: Reference, e: Event): Reference {
    match e.call
    case BeforeCall =>
      if !cfg.Enabled() || r.circuit.Closed? || (r.circuit.Open? && e.at < r.openUntil) then r
      else r.(circuit := HalfOpen, probing := true)
    case Success => Reference(Closed, [], r.openUntil, false)
    case Failure =>
      if !cfg.Enabled() || r.circuit.Open? then r
      else if r.circuit.HalfOpen? || |LaterThan(r.history + [e.at], e.at - cfg.window)| >= cfg.threshold then
        Reference(Open, [], e.at + cfg.cooldown, false)
      else r.(history := r.history + [e.at])
    case ReleaseProbe => if r.circuit.HalfOpen? then r.(probing := false) else r
  }

  function ReferenceRun(cfg: Config, run: seq<Event>): Reference {
    if run == [] then Reference(Closed, [], 0.0, false)
    else ReferenceStep(cfg, ReferenceRun(cfg, run[..|run| - 1]), run[|run| - 1])
  }

  lemma {:induction false} LaterThanAppend(a: seq<real>, b: seq<real>, cutoff: real)
    ensures LaterThan(a + b, cutoff) == LaterThan(a, cutoff) + LaterThan(b, cutoff)
  {
    if a == [] {
      assert a + b == b;
    } else {
      assert (a + b)[1..] == a[1..] + b;
      LaterThanAppend(a[1..], b, cutoff);
    }
  }

  lemma {:induction false} LaterThanTwice(a: seq<real>, low: real, high: real)
    requires low <= high
    ensures LaterThan(LaterThan(a, low), high) == LaterThan(a, high)
  {
    if a != [] {
      LaterThanTwice(a[1..], low, high);
      if a[0] > low {
        assert ([a[0]] + LaterThan(a[1..], low))[1..] == LaterThan(a[1..], low);
      }
    }
  }

  lemma {:induction false} LaterThanKeepsOrder(a: seq<real>, cutoff: real)
    requires Ascending(a)
    ensures Ascending(LaterThan(a, cutoff))
    ensures forall t :: t in LaterThan(a, cutoff) ==> t in a
  {
    if a != [] {
      LaterThanKeepsOrder(a[1..], cutoff);
    }
  }

  lemma {:induction false} LaterThanAll(a: seq<real>, cutoff: real)
    requires forall i :: 0 <= i < |a| ==> a[i] > cutoff
    ensures LaterThan(a, cutoff) == a
  {
    if a != [] {
      LaterThanAll(a[1..], cutoff);
    }
  }

  /** On a sorted deque, dropping from the left is the same as filtering. */
  lemma {:induction false} DropStaleFilters(a: seq<real>, cutoff: real)
    requires Ascending(a)
    ensures DropStale(a, cutoff) == LaterThan(a, cutoff)
  {
    if a != [] {
      if a[0] <= cutoff {
        DropStaleFilters(a[1..], cutoff);
      } else {
        LaterThanAll(a, cutoff);
      }
    }
  }

  /** The part of a failure history that lies in the window ending at its last entry. */
  function Window(history: seq<real>, window: real): seq<real> {
    if history == [] then [] else LaterThan(history, history[|history| - 1] - window)
  }

  /** The pruned breaker `b` and the unpruned one `r` agree: `b` keeps exactly the part of
      the history inside the window that ended at the last failure. */
  predicate Refines(cfg: Config, b: Breaker, r: Reference, now: real) {
    && b.circuit == r.circuit && b.openUntil == r.openUntil && b.probing == r.probing
    && AscendingUpTo(r.history, now)
    && b.failures == Window(r.history, cfg.window)
    && (!b.circuit.Closed? ==> r.history == [])
    && (cfg.Enabled() ==> |b.failures| < cfg.threshold)
  }

  lemma WindowOnFailure(history: seq<real>, window: real, at: real)
    requires AscendingUpTo(history, at)
    ensures DropStale(Window(history, window) + [at], at - window) == LaterThan(history + [at], at - window)
  {
    var kept := Window(history, window);
    if history != [] {
      var last := history[|history| - 1];
      LaterThanKeepsOrder(history, last - window);
      LaterThanTwice(history, last - window, at - window);
    }
    assert Ascending(kept + [at]) by {
      forall i | 0 <= i < |kept|
        ensures kept[i] <= at
      {
        assert kept[i] in history;
      }
    }
    DropStaleFilters(kept + [at], at - window);
    LaterThanAppend(kept, [at], at - window);
    LaterThanAppend(history, [at], at - window);
  }

  lemma RefinesStep(cfg: Config, b: Breaker, r: Reference, now: real, e: Event)
    requires Refines(cfg, b, r, now) && now <= e.at
    ensures Refines(cfg, Step(cfg, b, e), ReferenceStep(cfg, r, e), e.at)
  {
    if e.call.Failure? {
      WindowOnFailure(r.history, cfg.window, e.at);
    }
  }

  function Latest(start: real, run: seq<Event>): real {
    if run == [] then start else run[|run| - 1].at
  }

  /** Window refinement. At every point of every run, pruning the deque changes nothing that
      can be seen: same circuit, same reopen time, same probe. While closed the deque is the
      whole history since the last success or open, filtered to the window of the last
      failure, sorted, and shorter than the threshold; otherwise it is empty. */
  lemma {:induction false} PrunedBreakerRefinesUnpruned(cfg: Config, start: real, run: seq<Event>)
    requires ClockFrom(start, run)
    ensures Refines(cfg, Run(cfg, INITIAL, run), ReferenceRun(cfg, run), Latest(start, run))
    ensures Ascending(Run(cfg, INITIAL, run).failures)
    ensures !Run(cfg, INITIAL, run).circuit.Closed? ==> Run(cfg, INITIAL, run).failures == []
    decreases |run|
  {
    if run != [] {
      var before := run[..|run| - 1];
      PrunedBreakerRefinesUnpruned(cfg, start, before);
      RefinesStep(cfg, Run(cfg, INITIAL, before), ReferenceRun(cfg, before), Latest(start, before), run[|run| - 1]);
    }
    var history := ReferenceRun(cfg, run).history;
    if history != [] {
      LaterThanKeepsOrder(history, history[|history| - 1] - cfg.window);
    }
  }

  /** The circuit opens from closed exactly when the full history, this failure included,
      holds at least `threshold` failures inside the window. */
  lemma OpensExactlyAtThreshold(cfg: Config, start: real, run: seq<Event>, at: real)
    requires cfg.Enabled() && ClockFrom(start, run) && Latest(start, run) <= at
    requires Run(cfg, INITIAL, run).circuit.Closed?
    ensures Run(cfg, INITIAL, run + [Event(Failure, at)]).circuit.Open?
       <==> |LaterThan(ReferenceRun(cfg, run).history + [at], at - cfg.window)| >= cfg.threshold
  {
    var whole := run + [Event(Failure, at)];
    assert whole[..|whole| - 1] == run;
    PrunedBreakerRefinesUnpruned(cfg, start, run);
    OpensFromClosed(cfg, Run(cfg, INITIAL, run), ReferenceRun(cfg, run), Latest(start, run), at);
  }

  lemma OpensFromClosed(cfg: Config, b: Breaker, r: Reference, now: real, at: real)
    requires cfg.Enabled() && Refines(cfg, b, r, now) && now <= at && b.circuit.Closed?
    ensures AfterFailure(cfg, b, at).circuit.Open? <==> |LaterThan(r.history + [at], at - cfg.window)| >= cfg.threshold
  {
    WindowOnFailure(r.history, cfg.window, at);
  }

  /** Who is let in: over every clocked run, a call is refused exactly if the circuit is open and
      its reopen time has not come, which the refusal carries, or if it is half-open with a probe
      running, and then for another cooldown. Closed or disabled, every call is let in. */
  lemma RefusedExactly(cfg: Config, start: real, run: seq<Event>, at: real)
    requires ClockFrom(start, run)
    ensures var r, v := ReferenceRun(cfg, run), BeforeCallVerdict(cfg, Run(cfg, INITIAL, run), at);
            && (v.Refused? <==> cfg.threshold > 0 && ((r.circuit.Open? && at < r.openUntil)
                                                      || (r.circuit.HalfOpen? && r.probing)))
            && (v.Refused? ==> v.until == if r.circuit.Open? then r.openUntil else at + cfg.cooldown)
  {
    PrunedBreakerRefinesUnpruned(cfg, start, run);
  }

  /** And when that is: the reopen time is a cooldown after the failure that opened the circuit. */
  lemma {:induction false} OpenSinceLastTrip(cfg: Config, run: seq<Event>)
    requires Run(cfg, INITIAL, run).circuit.Open?
    ensures OpenTimes(cfg, INITIAL, run) != []
    ensures Run(cfg, INITIAL, run).openUntil == LastOpen(0.0, OpenTimes(cfg, INITIAL, run)) + cfg.cooldown
    decreases |run|
  {
    var before, last := run[..|run| - 1], run[|run| - 1];
    if !(last.call.Failure? && FailureOpens(cfg, Run(cfg, INITIAL, before), last.at)) {
      OpenSinceLastTrip(cfg, before);
      assert OpenTimes(cfg, INITIAL, run) == OpenTimes(cfg, INITIAL, before) + [];
    }
  }

  // ---- admissions while the chain stays down --------------------------------

  /** Callers let through by a run. */
  function Admissions(cfg: Config, b: Breaker, run: seq<Event>): nat {
    if run == [] then 0
    else
      var before := run[..|run| - 1];
      var last := run[|run| - 1];
      Admissions(cfg, b, before)
      + if last.call.BeforeCall? && BeforeCallVerdict(cfg, Run(cfg, b, before), last.at).Admitted? then 1 else 0
  }

  /** The times at which a run opened the circuit, in order. */
  function OpenTimes(cfg: Config, b: Breaker, run: seq<Event>): seq<real> {
    if run == [] then []
    else
      var before := run[..|run| - 1];
      var last := run[|run| - 1];
      OpenTimes(cfg, b, before)
      + if last.call.Failure? && FailureOpens(cfg, Run(cfg, b, before), last.at) then [last.at] else []
  }

  predicate NoSuccess(run: seq<Event>) {
    forall i :: 0 <= i < |run| ==> !run[i].call.Success?
  }

  predicate Probing(b: Breaker) {
    b.circuit.HalfOpen? && b.probing
  }

  /** Half-open with the probe given back: the next caller will be let in. */
  predicate Vacant(b: Breaker) {
    b.circuit.HalfOpen? && !b.probing
  }

  /** How often a release met a running probe. */
  function Released(cfg: Config, b: Breaker, run: seq<Event>): nat {
    if run == [] then 0
    else
      var before := run[..|run| - 1];
      Released(cfg, b, before)
      + if run[|run| - 1].call.ReleaseProbe? && Probing(Run(cfg, b, before)) then 1 else 0
  }

  /** How often a failure, of a walk begun earlier, met a half-open circuit without a probe. */
  function Idle(cfg: Config, b: Breaker, run: seq<Event>): nat {
    if run == [] then 0
    else
      var before := run[..|run| - 1];
      Idle(cfg, b, before)
      + if run[|run| - 1].call.Failure? && Vacant(Run(cfg, b, before)) then 1 else 0
  }

  /** Every two successive opens, the one at `first` included, are a cooldown apart. */
  predicate Spaced(first: real, opens: seq<real>, cooldown: real) {
    && (opens != [] ==> first + cooldown <= opens[0])
    && (forall i :: 0 <= i < |opens| - 1 ==> opens[i] + cooldown <= opens[i + 1])
  }

  function LastOpen(first: real, opens: seq<real>): real {
    if opens == [] then first else opens[|opens| - 1]
  }

  /** `n` cooldowns laid end to end. */
  function Cooldowns(n: nat, cooldown: real): real {
    if n == 0 then 0.0 else Cooldowns(n - 1, cooldown) + cooldown
  }

  lemma OneMore(x: real, c: real)
    ensures (x + 1.0) * c == x * c + c
  {
  }

  lemma {:induction false} CooldownsIsProduct(n: nat, cooldown: real)
    ensures Cooldowns(n, cooldown) == n as real * cooldown
  {
    if n > 0 {
      CooldownsIsProduct(n - 1, cooldown);
      OneMore((n - 1) as real, cooldown);
    }
  }

  /** Half-open episodes so far: one for each reopening, and the one going on. */
  function Episodes(b: Breaker, opens: seq<real>): nat {
    |opens| + (if b.circuit.HalfOpen? then 1 else 0)
  }

  /** What holds at `now` of a breaker opened at `first` that has since reopened at `opens`. */
  predicate SpacedSoFar(cfg: Config, first: real, b: Breaker, opens: seq<real>, now: real) {
    && Spaced(first, opens, cfg.cooldown)
    && !b.circuit.Closed?
    && (b.circuit.Open? ==> b.openUntil == LastOpen(first, opens) + cfg.cooldown)
    && (b.circuit.HalfOpen? ==> LastOpen(first, opens) + cfg.cooldown <= now)
    && first + Cooldowns(|opens|, cfg.cooldown) <= LastOpen(first, opens) <= now
  }

  function OpensAt(cfg: Config, b: Breaker, e: Event): seq<real> {
    if e.call.Failure? && FailureOpens(cfg, b, e.at) then [e.at] else []
  }

  lemma SpacedStep(cfg: Config, first: real, b: Breaker, opens: seq<real>, e: Event)
    requires cfg.Enabled() && !e.call.Success?
    requires SpacedSoFar(cfg, first, b, opens, e.at)
    ensures SpacedSoFar(cfg, first, Step(cfg, b, e), opens + OpensAt(cfg, b, e), e.at)
  {
    if e.call.Failure? && b.circuit.HalfOpen? {
      assert Cooldowns(|opens| + 1, cfg.cooldown) == Cooldowns(|opens|, cfg.cooldown) + cfg.cooldown;
      assert |opens + [e.at]| == |opens| + 1;
    } else {
      assert opens + OpensAt(cfg, b, e) == opens;
    }
  }

  lemma {:induction false} SpacedThroughout(cfg: Config, first: real, run: seq<Event>, now: real)
    requires cfg.Enabled() && cfg.cooldown >= 0.0
    requires ClockFrom(first, run) && NoSuccess(run) && Latest(first, run) <= now
    ensures SpacedSoFar(cfg, first, Run(cfg, Opened(cfg, first), run), OpenTimes(cfg, Opened(cfg, first), run), now)
    decreases |run|
  {
    if run != [] {
      var start, before, last := Opened(cfg, first), run[..|run| - 1], run[|run| - 1];
      SpacedThroughout(cfg, first, before, last.at);
      SpacedStep(cfg, first, Run(cfg, start, before), OpenTimes(cfg, start, before), last);
      assert OpenTimes(cfg, start, run) == OpenTimes(cfg, start, before) + OpensAt(cfg, Run(cfg, start, before), last);
    }
  }

  /** Every admission is accounted for. While no success is recorded, the callers let in are one
      for each reopening, one for each release that met a running probe, and the probe running
      now, less the reopenings that no probe preceded and the vacancy there is now. */
  lemma {:induction false} AdmissionsAccounted(cfg: Config, first: real, run: seq<Event>)
    requires cfg.Enabled() && NoSuccess(run)
    ensures var b := Run(cfg, Opened(cfg, first), run);
            && !b.circuit.Closed?
            && Admissions(cfg, Opened(cfg, first), run) + Idle(cfg, Opened(cfg, first), run)
               == |OpenTimes(cfg, Opened(cfg, first), run)| + Released(cfg, Opened(cfg, first), run)
                  + (if Probing(b) then 1 else 0)
            && Idle(cfg, Opened(cfg, first), run) + (if Vacant(b) then 1 else 0) <= Released(cfg, Opened(cfg, first), run)
    decreases |run|
  {
    if run != [] {
      AdmissionsAccounted(cfg, first, run[..|run| - 1]);
    }
  }

  /** Once open at `first`, and as long as no success is recorded, successive opens are at least
      a cooldown apart, each half-open episode admits at least one caller, and each has admitted
      exactly one if and only if no release of a running probe has let in another: every such
      release was followed by a failure without a probe, or has yet to be taken up. So one probe
      a cooldown holds in every run in which no release meets a running probe. */
  lemma OneProbePerCooldown(cfg: Config, first: real, run: seq<Event>)
    requires cfg.Enabled() && cfg.cooldown >= 0.0
    requires ClockFrom(first, run) && NoSuccess(run)
    ensures var b := Run(cfg, Opened(cfg, first), run);
            var opens := OpenTimes(cfg, Opened(cfg, first), run);
            var admitted := Admissions(cfg, Opened(cfg, first), run);
            && Spaced(first, opens, cfg.cooldown)
            && Episodes(b, opens) <= admitted
            && (admitted == Episodes(b, opens) <==>
                  Released(cfg, Opened(cfg, first), run)
                  == Idle(cfg, Opened(cfg, first), run) + (if Vacant(b) then 1 else 0))
            && (Released(cfg, Opened(cfg, first), run) == 0 ==> admitted == Episodes(b, opens))
  {
    SpacedThroughout(cfg, first, run, Latest(first, run));
    AdmissionsAccounted(cfg, first, run);
  }

  lemma EpisodesFit(cfg: Config, first: real, b: Breaker, opens: seq<real>, now: real, n: nat)
    requires SpacedSoFar(cfg, first, b, opens, now) && n == Episodes(b, opens)
    ensures n as real * cfg.cooldown <= now - first
  {
    CooldownsIsProduct(n, cfg.cooldown);
    if b.circuit.HalfOpen? {
      assert Cooldowns(|opens| + 1, cfg.cooldown) == Cooldowns(|opens|, cfg.cooldown) + cfg.cooldown;
    }
  }

  lemma EpisodesBound(cfg: Config, first: real, run: seq<Event>, now: real, n: nat)
    requires cfg.Enabled() && cfg.cooldown >= 0.0
    requires ClockFrom(first, run) && NoSuccess(run) && Latest(first, run) <= now
    requires n == Episodes(Run(cfg, Opened(cfg, first), run), OpenTimes(cfg, Opened(cfg, first), run))
    ensures n as real * cfg.cooldown <= now - first
  {
    SpacedThroughout(cfg, first, run, now);
    EpisodesFit(cfg, first, Run(cfg, Opened(cfg, first), run), OpenTimes(cfg, Opened(cfg, first), run), now, n);
  }

  /** The callers admitted, less those that only a release let in. */
  function AdmittedUnreleased(cfg: Config, first: real, run: seq<Event>): int {
    var start := Opened(cfg, first);
    Admissions(cfg, start, run) + Idle(cfg, start, run) + (if Vacant(Run(cfg, start, run)) then 1 else 0)
    - Released(cfg, start, run)
  }

  /** Admission bound: by time `now` the callers admitted, less those that only a release let in,
      number at most (now - first) / cooldown; and if no release met a running probe, that is
      all of them. */
  lemma AdmissionBound(cfg: Config, first: real, run: seq<Event>, now: real, n: nat)
    requires cfg.Enabled() && cfg.cooldown >= 0.0
    requires ClockFrom(first, run) && NoSuccess(run) && Latest(first, run) <= now
    requires n == AdmittedUnreleased(cfg, first, run)
    ensures n as real * cfg.cooldown <= now - first
    ensures n <= Admissions(cfg, Opened(cfg, first), run)
    ensures Released(cfg, Opened(cfg, first), run) == 0 ==> n == Admissions(cfg, Opened(cfg, first), run)
  {
    AdmissionsAccounted(cfg, first, run);
    EpisodesBound(cfg, first, run, now, n);
  }

  /** It happens: two callers get through at one instant. */
  lemma ReleasedProbeAdmitsAgain(cfg: Config, first: real, at: real)
    requires cfg.Enabled() && first + cfg.cooldown <= at
    ensures var run := [Event(BeforeCall, at), Event(ReleaseProbe, at), Event(BeforeCall, at)];
            Admissions(cfg, Opened(cfg, first), run) == 2 && Released(cfg, Opened(cfg, first), run) == 1
  {
    var b := Opened(cfg, first);
    var e1, e2 := Event(BeforeCall, at), Event(ReleaseProbe, at);
    assert [e1, e2, e1][..2] == [e1, e2];
    assert [e1, e2][..1] == [e1];
    assert [e1][..0] == [];
    assert Run(cfg, b, [e1]) == Step(cfg, b, e1);
    assert Run(cfg, b, [e1, e2]) == Step(cfg, Step(cfg, b, e1), e2);
    assert Admissions(cfg, b, [e1]) == 1;
    assert Admissions(cfg, b, [e1, e2]) == 1;
    assert Released(cfg, b, [e1]) == 0;
    assert Released(cfg, b, [e1, e2]) == 1;
  }

  /** Only a success closes the circuit. */
  lemma {:induction false} ClosedOnlyBySuccess(cfg: Config, b: Breaker, run: seq<Event>)
    requires cfg.Enabled() && !b.circuit.Closed?
    requires Run(cfg, b, run).circuit.Closed?
    ensures exists i :: 0 <= i < |run| && run[i].call.Success?
    decreases |run|
  {
    if run != [] && !run[|run| - 1].call.Success? {
      var before := run[..|run| - 1];
      ClosedOnlyBySuccess(cfg, b, before);
      var i :| 0 <= i < |before| && before[i].call.Success?;
      assert run[i].call.Success?;
    }
  }
}
