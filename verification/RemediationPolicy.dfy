/** What may run unattended: the auto-execute policy resolved from configuration, and the gate
    (agent/knowledge_base.py, `resolve_auto_policy`, `remediation_is_auto_eligible`). */
module RemediationPolicy {
  import opened Wrappers
  import opened Text
  import opened Floats

  const CLASSES: seq<string> :=
    ["gitops-patch", "k8s-action", "k8s-imperative", "node-action", "data-fix", "external-system", "manual"]
  const RISKS: seq<string> := ["low", "med", "high"]

  /** Classes that exist to park. */
  const NEVER_AUTO: set<string> := {"k8s-imperative", "data-fix", "external-system", "manual"}

  const DEFAULT_AUTO: seq<string> := ["gitops-patch", "node-action"]
  const DEFAULT_MIN_CONFIDENCE := Number(0.8)
  const DEFAULT_LEASE_S := 1800
  const DEFAULT_MAX_ATTEMPTS := 3
  const DEFAULT_CONFIDENCE_CAP := Number(0.5)

  predicate Less(a: Floating, b: Floating) {
    match (a, b)
    case (NaN, _) => false
    case (_, NaN) => false
    case (Number(x), Number(y)) => x < y
    case (Number(_), Infinite(positive)) => positive
    case (Infinite(positive), Number(_)) => !positive
    case (Infinite(p), Infinite(q)) => !p && q
  }

  predicate AtLeast(a: Floating, b: Floating) {
    !a.NaN? && !b.NaN? && !Less(a, b)
  }

  /** A number as configuration may hold it; `Junk` is what `float` or `int` refuses. */
  datatype RawFloat = NoFloat | JunkFloat | Float(value: Floating)
  datatype RawInt = NoInt | JunkInt | InfiniteInt | Int(value: int)

  /** The keys of the `remediation` block that are read here. */
  datatype Config = Config(classes: Raw, minConfidence: RawFloat, leaseTimeout: RawInt, maxAttempts: RawInt,
                           confidenceCap: RawFloat)

  datatype Policy = Policy(autoClasses: seq<string>, minConfidence: Floating, leaseTimeout: int,
                           maxAttempts: int, confidenceCap: Floating)

  /** `_bounded_float`: the bounds are compared, so a NaN is neither below nor above them. */
  function BoundedFloat(raw: RawFloat, default_: Floating, lo: real, hi: real): Floating {
    match raw
    case Float(value) => if Less(value, Number(lo)) || Less(Number(hi), value) then default_ else value
    case _ => default_
  }

  /** `_positive_int`; None is the overflow that `int` raises on an infinity, which is not caught. */
  function PositiveInt(raw: RawInt, default_: int): Option<int> {
    match raw
    case Int(value) => Some(if value < 1 then default_ else value)
    case InfiniteInt => None
    case _ => Some(default_)
  }

  predicate MayBeAuto(name: string) {
    name in CLASSES && name !in NEVER_AUTO
  }

  /** The filter loop of `_configured_auto_classes`. */
  function AutoNames(names: seq<string>, kept: seq<string>): seq<string> {
    if names == [] then kept
    else if MayBeAuto(names[0]) && names[0] !in kept then AutoNames(names[1..], kept + [names[0]])
    else AutoNames(names[1..], kept)
  }

  function ConfiguredAutoClasses(raw: Raw): seq<string> {
    match raw
    case Missing => DEFAULT_AUTO
    case Unusable => DEFAULT_AUTO
    case Written(text) => AutoNames(Fields(text), [])
    case Listed(names) => AutoNames(Stripped(names), [])
  }

  /** `resolve_auto_policy` */
  function ResolveAutoPolicy(config: Config): Option<Policy> {
    var lease := PositiveInt(config.leaseTimeout, DEFAULT_LEASE_S);
    var attempts := PositiveInt(config.maxAttempts, DEFAULT_MAX_ATTEMPTS);
    if lease.None? || attempts.None? then None
    else Some(Policy(
      ConfiguredAutoClasses(config.classes),
      BoundedFloat(config.minConfidence, DEFAULT_MIN_CONFIDENCE, 0.0, 1.0),
      lease.value,
      attempts.value,
      BoundedFloat(config.confidenceCap, DEFAULT_CONFIDENCE_CAP, 0.0, 1.0)))
  }

  /** `normalize_remediation_fields` */
  function NormalizedClass(cls: string): string {
    if cls in CLASSES then cls else "manual"
  }

  function NormalizedRisk(risk: string): string {
    if risk in RISKS then risk else "high"
  }

  /** `remediation_is_auto_eligible` under the live policy */
  predicate AutoEligible(policy: Policy, cls: string, risk: string, confidence: Option<Floating>) {
    && cls in policy.autoClasses
    && risk == "low"
    && confidence.Some? && AtLeast(confidence.value, policy.minConfidence)
  }

  ghost predicate NoRepeats(names: seq<string>) {
    forall i, j :: 0 <= i < j < |names| ==> names[i] != names[j]
  }

  lemma {:induction false} AutoNamesExactly(names: seq<string>, kept: seq<string>, name: string)
    requires NoRepeats(kept)
    ensures NoRepeats(AutoNames(names, kept))
    ensures name in AutoNames(names, kept) <==> name in kept || (name in names && MayBeAuto(name))
    ensures kept <= AutoNames(names, kept)
  {
    if names != [] {
      var longer := if MayBeAuto(names[0]) && names[0] !in kept then kept + [names[0]] else kept;
      AutoNamesExactly(names[1..], longer, name);
      assert name in names <==> name == names[0] || name in names[1..];
    }
  }

  /** An explicit list is honoured, an empty one included, for exactly the names that exist and
      are not park-only; no list at all means the shipped default. */
  lemma AutoClassesExactly(raw: Raw, name: string)
    ensures NoRepeats(ConfiguredAutoClasses(raw))
    ensures name in ConfiguredAutoClasses(raw) <==>
              && MayBeAuto(name)
              && match raw
                 case Written(text) => name in Fields(text)
                 case Listed(names) => name in Stripped(names)
                 case _ => name in DEFAULT_AUTO
  {
    match raw
    case Written(text) => AutoNamesExactly(Fields(text), [], name);
    case Listed(names) => AutoNamesExactly(Stripped(names), [], name);
    case _ =>
  }

  /** Whatever the configuration says, the live policy never runs a park-only or unknown class,
      waits at least a second for a lease and allows at least one attempt; and its confidence
      floor lies in [0, 1], except that a floor configured as NaN is kept. */
  lemma PolicyIsSafe(config: Config)
    ensures ResolveAutoPolicy(config).None? <==> config.leaseTimeout.InfiniteInt? || config.maxAttempts.InfiniteInt?
    ensures ResolveAutoPolicy(config).Some? ==>
              var p := ResolveAutoPolicy(config).value;
              && (forall name :: name in p.autoClasses ==> MayBeAuto(name))
              && NoRepeats(p.autoClasses)
              && 1 <= p.leaseTimeout && 1 <= p.maxAttempts
              && (p.minConfidence.NaN? <==> config.minConfidence == Float(NaN))
              && (!p.minConfidence.NaN? ==> p.minConfidence.Number? && 0.0 <= p.minConfidence.x <= 1.0)
  {
    AutoClassesExactly(config.classes, "");
    forall name | name in ConfiguredAutoClasses(config.classes)
      ensures MayBeAuto(name)
    {
      AutoClassesExactly(config.classes, name);
    }
  }

  /** A whole number of at least one is taken as written; nothing, junk and anything less is the
      default. */
  predicate TakenFrom(raw: RawInt, value: int, default_: int) {
    value == if raw.Int? && raw.value >= 1 then raw.value else default_
  }

  /** A number in [0, 1] is taken as written, and so is a NaN; all else is the default. */
  predicate FractionFrom(raw: RawFloat, value: Floating, default_: real) {
    if raw.Float? && (raw.value.NaN? || (raw.value.Number? && 0.0 <= raw.value.x <= 1.0)) then value == raw.value
    else value == Number(default_)
  }

  /** Every field of the live policy, from its own key of the configuration: with nothing
      configured, the two classes gitops-patch and node-action, a floor of 0.8, a lease of 1800
      seconds, 3 attempts and a cap of 0.5 on a summary's confidence. */
  lemma PolicyExactly(config: Config, name: string)
    requires !config.leaseTimeout.InfiniteInt? && !config.maxAttempts.InfiniteInt?
    ensures ResolveAutoPolicy(config).Some?
    ensures var p := ResolveAutoPolicy(config).value;
            && TakenFrom(config.leaseTimeout, p.leaseTimeout, 1800)
            && TakenFrom(config.maxAttempts, p.maxAttempts, 3)
            && FractionFrom(config.minConfidence, p.minConfidence, 0.8)
            && FractionFrom(config.confidenceCap, p.confidenceCap, 0.5)
            && (name in p.autoClasses <==>
                  match config.classes
                  case Written(text) => name in Fields(text) && name in {"gitops-patch", "k8s-action", "node-action"}
                  case Listed(names) =>
                    && name in {"gitops-patch", "k8s-action", "node-action"}
                    && exists i :: 0 <= i < |names| && Strip(names[i]) == name
                  case _ => name in {"gitops-patch", "node-action"})
  {
    AutoClassesExactly(config.classes, name);
    if config.classes.Listed? {
      StrippedExactly(config.classes.names, name);
    }
  }

  /** The gate, from the configuration: which finite confidences pass it, under a finite floor. */
  lemma EligibleExactly(config: Config, cls: string, risk: string, confidence: Option<Floating>)
    requires ResolveAutoPolicy(config).Some?
    ensures AutoEligible(ResolveAutoPolicy(config).value, NormalizedClass(cls), NormalizedRisk(risk), confidence) <==>
              var p := ResolveAutoPolicy(config).value;
              && cls in p.autoClasses && risk == "low" && confidence.Some? && p.minConfidence.Number?
              && match confidence.value
                 case Number(x) => x >= p.minConfidence.x
                 case Infinite(positive) => positive
                 case NaN => false
  {
    PolicyIsSafe(config);
    assert "manual" !in ResolveAutoPolicy(config).value.autoClasses by {
      AutoClassesExactly(config.classes, "manual");
    }
  }

  /** A policy that `resolve_auto_policy` can return. */
  predicate Live(policy: Policy) {
    && 1 <= policy.leaseTimeout && 1 <= policy.maxAttempts
    && forall name :: name in policy.autoClasses ==> MayBeAuto(name)
  }

  /** What passes the gate is low-risk, of a class the executor can run, and carries a
      confidence; a NaN, as the row's confidence or as the floor, passes nothing. */
  lemma EligibleMeans(config: Config, cls: string, risk: string, confidence: Option<Floating>)
    requires ResolveAutoPolicy(config).Some?
    requires AutoEligible(ResolveAutoPolicy(config).value, NormalizedClass(cls), NormalizedRisk(risk), confidence)
    ensures MayBeAuto(cls) && risk == "low"
    ensures confidence.Some? && !confidence.value.NaN? && config.minConfidence != Float(NaN)
    ensures confidence.value.Infinite? || 0.0 <= confidence.value.x
  {
    PolicyIsSafe(config);
  }
}
