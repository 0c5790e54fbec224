/** The node-action allowlist and the plan gate (agent/node_action_plan.py). */
module NodeActionPlan {
  import opened Wrappers
  import opened Text

  /** `Infinite` is a float infinity, on which `int` raises an error that is not caught. */
  datatype Number = Absent | NotANumber | Whole(n: int) | Infinite

  /** The `node_action` block of the configuration. */
  datatype Ceiling = Ceiling(binaries: Raw, verbs: Raw, maxCommands: Number)

  datatype AllowList = AllowList(binaries: set<string>, verbs: set<string>, maxCommands: int)

  const NOTHING_ALLOWED := AllowList({}, {}, 1)
  const DEFAULT_MAX_COMMANDS := 4

  const DENY_BINARIES: set<string> := {
    "rm", "rmdir", "dd", "mkfs", "shutdown", "reboot", "halt", "poweroff",
    "kill", "pkill", "killall", "userdel", "useradd", "usermod", "passwd",
    "iptables", "nft", "wipefs", "fdisk", "parted", "mv", "cp", "sh", "bash",
    "curl", "wget", "eval", "exec", "tee", "sed", "awk", "python", "python3"}

  // ---- the allowlist -----------------------------------------------------------

  /** `_split_list` */
  function SplitList(raw: Raw): set<string> {
    match raw
    case Missing => {}
    case Written(text) => SetOf(Fields(text))
    case Listed(names) => SetOf(Stripped(names))
    case Unusable => {}
  }

  function Narrowed(ceiling: set<string>, picked: set<string>): set<string> {
    if picked != {} then ceiling * picked else ceiling
  }

  function MaxCommands(n: Number): int {
    var given := if n.Whole? && n.n != 0 then n.n else DEFAULT_MAX_COMMANDS;
    if given < 1 then 1 else given
  }

  /** `allowlist_from_config`; a selection of None is a failed read, and None as the result is the
      error that an infinite limit raises. */
  function AllowlistFromConfig(ceiling: Ceiling, binaries: Option<Raw>, verbs: Option<Raw>): Option<AllowList> {
    if binaries.None? || verbs.None? then Some(NOTHING_ALLOWED)
    else if ceiling.maxCommands.Infinite? then None
    else Some(AllowList(Narrowed(SplitList(ceiling.binaries), SplitList(binaries.value)),
                        Narrowed(SplitList(ceiling.verbs), SplitList(verbs.value)),
                        MaxCommands(ceiling.maxCommands)))
  }

  datatype EditError = BadShape | OffCeiling(names: seq<string>) | NoBinary | NoVerb
  datatype Edit = Stored(binaries: string, verbs: string) | Refused(error: EditError)

  /** `_name_list`: the names of a form field, sorted and without repeats. */
  function NameList(raw: Raw): seq<string> {
    match raw
    case Missing => []
    case Written(text) => SortUnique(Fields(text))
    case Listed(names) => SortUnique(Stripped(names))
    case Unusable => []
  }

  function OffList(names: seq<string>, ceiling: set<string>): seq<string> {
    if names == [] then []
    else (if names[0] in ceiling then [] else [names[0]]) + OffList(names[1..], ceiling)
  }

  function Printed(names: seq<string>, ceiling: set<string>): string {
    if SetOf(names) == ceiling then "" else Join(names, ",")
  }

  /** `stored_selection`: the two strings the console stores, or why the edit is refused. */
  function StoredSelection(ceiling: Ceiling, binaries: Raw, verbs: Raw): Edit {
    var ceilB, ceilV := SplitList(ceiling.binaries), SplitList(ceiling.verbs);
    var namesB, namesV := NameList(binaries), NameList(verbs);
    var extra := OffList(namesB, ceilB) + OffList(namesV, ceilV);
    if binaries.Unusable? || verbs.Unusable? then Refused(BadShape)
    else if extra != [] then Refused(OffCeiling(extra))
    else if namesB == [] then Refused(NoBinary)
    else if namesV == [] then Refused(NoVerb)
    else Stored(Printed(namesB, ceilB), Printed(namesV, ceilV))
  }

  lemma {:induction false} OffListEmpty(names: seq<string>, ceiling: set<string>)
    ensures OffList(names, ceiling) == [] <==> SetOf(names) <= ceiling
  {
    if names != [] {
      OffListEmpty(names[1..], ceiling);
      assert SetOf(names) == {names[0]} + SetOf(names[1..]);
    }
  }

  lemma CleanNamesSplitBack(names: seq<string>)
    requires forall n :: n in names ==> Clean(n)
    ensures SplitList(Written(Join(names, ","))) == SetOf(names)
  {
    FieldsOfJoin(names);
  }

  /** One list, stored and read back under any later ceiling: an unset choice follows the new
      ceiling, and a proper choice of names that can be written in a list keeps exactly those
      that the new ceiling still has. */
  lemma ChoiceUnderNewCeiling(names: seq<string>, ceiling: set<string>, later: set<string>)
    requires names != [] && forall n :: n in names ==> Clean(n)
    ensures Narrowed(later, SplitList(Written(Printed(names, ceiling))))
         == if SetOf(names) == ceiling then later else later * SetOf(names)
  {
    if SetOf(names) == ceiling {
      assert Fields("") == [];
    } else {
      CleanNamesSplitBack(names);
      assert names[0] in SetOf(names);
    }
  }

  /** The round trip for one list, exactly: what is read back is the accepted choice if and only
      if the whole ceiling was chosen or every chosen name can be written in a list. */
  lemma ChoiceRoundTrips(names: seq<string>, ceiling: set<string>)
    requires names != [] && SetOf(names) <= ceiling
    ensures Narrowed(ceiling, SplitList(Written(Printed(names, ceiling)))) == SetOf(names)
       <==> (SetOf(names) == ceiling || forall n :: n in names ==> Clean(n))
  {
    if forall n :: n in names ==> Clean(n) {
      ChoiceUnderNewCeiling(names, ceiling, ceiling);
    } else if SetOf(names) == ceiling {
      assert Fields("") == [];
    } else {
      var bad :| bad in names && !Clean(bad);
      var text := Printed(names, ceiling);
      FieldsFromClean(text, "");
      assert bad !in SplitList(Written(text));
      assert bad in SetOf(names);
    }
  }

  function Chosen(raw: Raw): set<string> {
    SetOf(NameList(raw))
  }

  predicate Writable(names: set<string>) {
    forall n :: n in names ==> Clean(n)
  }

  lemma StoredIsWithinCeiling(ceiling: Ceiling, binaries: Raw, verbs: Raw)
    requires StoredSelection(ceiling, binaries, verbs).Stored?
    ensures NameList(binaries) != [] && NameList(verbs) != []
    ensures Chosen(binaries) <= SplitList(ceiling.binaries) && Chosen(verbs) <= SplitList(ceiling.verbs)
  {
    OffListEmpty(NameList(binaries), SplitList(ceiling.binaries));
    OffListEmpty(NameList(verbs), SplitList(ceiling.verbs));
  }

  /** What the console accepted is what the next Job gets: reading back the two stored strings
      gives exactly the choice if and only if, in each list, the whole ceiling was chosen or
      every chosen name is free of commas and white space. */
  lemma StoredSelectionRoundTrips(ceiling: Ceiling, binaries: Raw, verbs: Raw)
    requires StoredSelection(ceiling, binaries, verbs).Stored?
    ensures var stored := StoredSelection(ceiling, binaries, verbs);
            var allow := AllowlistFromConfig(ceiling, Some(Written(stored.binaries)), Some(Written(stored.verbs)));
            && (allow.None? <==> ceiling.maxCommands.Infinite?)
            && (allow.Some? ==>
                  && (allow.value.binaries == Chosen(binaries)
                      <==> (Chosen(binaries) == SplitList(ceiling.binaries) || Writable(Chosen(binaries))))
                  && (allow.value.verbs == Chosen(verbs)
                      <==> (Chosen(verbs) == SplitList(ceiling.verbs) || Writable(Chosen(verbs)))))
  {
    StoredIsWithinCeiling(ceiling, binaries, verbs);
    ChoiceRoundTrips(NameList(binaries), SplitList(ceiling.binaries));
    ChoiceRoundTrips(NameList(verbs), SplitList(ceiling.verbs));
    assert (forall n :: n in NameList(binaries) ==> Clean(n)) <==> Writable(Chosen(binaries));
    assert (forall n :: n in NameList(verbs) ==> Clean(n)) <==> Writable(Chosen(verbs));
  }

  /** No selection widens the ceiling, and a failed read allows nothing. */
  lemma SelectionOnlyNarrows(ceiling: Ceiling, binaries: Option<Raw>, verbs: Option<Raw>)
    ensures var allow := AllowlistFromConfig(ceiling, binaries, verbs);
            && (allow.None? <==> binaries.Some? && verbs.Some? && ceiling.maxCommands.Infinite?)
            && (allow.Some? ==>
                  && allow.value.binaries <= SplitList(ceiling.binaries) && allow.value.verbs <= SplitList(ceiling.verbs)
                  && allow.value.maxCommands >= 1
                  && (binaries.None? || verbs.None? ==> allow.value.binaries == {} && allow.value.verbs == {}))
  {
  }

  /** When the deployed ceiling changes, a stored full choice follows it and a stored proper
      choice keeps what is left of it. */
  lemma StoredSelectionFollowsCeiling(ceiling: Ceiling, binaries: Raw, verbs: Raw, later: Ceiling)
    requires StoredSelection(ceiling, binaries, verbs).Stored?
    requires Writable(Chosen(binaries)) && Writable(Chosen(verbs))
    ensures var stored := StoredSelection(ceiling, binaries, verbs);
            var allow := AllowlistFromConfig(later, Some(Written(stored.binaries)), Some(Written(stored.verbs)));
            allow.Some? ==>
              && allow.value.binaries == (if Chosen(binaries) == SplitList(ceiling.binaries) then SplitList(later.binaries)
                                          else SplitList(later.binaries) * Chosen(binaries))
              && allow.value.verbs == (if Chosen(verbs) == SplitList(ceiling.verbs) then SplitList(later.verbs)
                                       else SplitList(later.verbs) * Chosen(verbs))
  {
    StoredIsWithinCeiling(ceiling, binaries, verbs);
    assert forall n :: n in NameList(binaries) ==> n in Chosen(binaries);
    assert forall n :: n in NameList(verbs) ==> n in Chosen(verbs);
    ChoiceUnderNewCeiling(NameList(binaries), SplitList(ceiling.binaries), SplitList(later.binaries));
    ChoiceUnderNewCeiling(NameList(verbs), SplitList(ceiling.verbs), SplitList(later.verbs));
  }

  // ---- the gate -----------------------------------------------------------------

  /** A command as the shell lexer sees it; the lexer and the metacharacter pattern are not
      part of this model. */
  datatype Lexed = Metachar | Unparseable | Tokens(tokens: seq<string>)
  type Lexer = string -> Lexed

  datatype Kind =
    | Empty | NoAllowlist | HasMetachar | DoesNotParse | SudoForm
    | DeniedBinary | NotAllowlisted | SystemctlVerb | NoCommands | TooMany

  datatype Refusal = Refusal(command: string, kind: Kind)

  /** The words after an optional `sudo -n`, or None for any other use of sudo. */
  function AfterSudo(tokens: seq<string>): Option<seq<string>>
    requires tokens != []
  {
    if tokens[0] != "sudo" then Some(tokens)
    else if |tokens| < 3 || tokens[1] != "-n" then None
    else Some(tokens[2..])
  }

  /** `_refusal`: why one command is refused, if it is. */
  function RefusalOf(lex: Lexer, command: string, allow: AllowList): Option<Kind> {
    var raw := Strip(command);
    if raw == "" then Some(Empty)
    else if allow.binaries == {} then Some(NoAllowlist)
    else
      match lex(raw)
      case Metachar => Some(HasMetachar)
      case Unparseable => Some(DoesNotParse)
      case Tokens(tokens) =>
        if tokens == [] then Some(Empty)
        else
          var words := AfterSudo(tokens);
          if words.None? then Some(SudoForm)
          else if words.value[0] in DENY_BINARIES then Some(DeniedBinary)
          else if words.value[0] !in allow.binaries then Some(NotAllowlisted)
          else if words.value[0] == "systemctl"
               && (if |words.value| > 1 then words.value[1] else "") !in allow.verbs then Some(SystemctlVerb)
          else None
  }

  /** `words` are what the tokens run: the tokens themselves when they do not start with `sudo`,
      and otherwise what follows `sudo -n`. */
  predicate Runs(tokens: seq<string>, words: seq<string>) {
    words != [] && ((tokens == words && words[0] != "sudo") || tokens == ["sudo", "-n"] + words)
  }

  predicate VerbAllowed(words: seq<string>, verbs: set<string>) {
    if |words| < 2 then "" in verbs else words[1] in verbs
  }

  /** A command that passes runs a binary on the list, not a denied one, and systemctl only with a
      verb on the list. */
  ghost predicate RunsOnly(lex: Lexer, command: string, allow: AllowList) {
    && Strip(command) != "" && lex(Strip(command)).Tokens?
    && exists words :: Runs(lex(Strip(command)).tokens, words)
                       && words[0] in allow.binaries && words[0] !in DENY_BINARIES
                       && (words[0] == "systemctl" ==> VerbAllowed(words, allow.verbs))
  }

  lemma RunsOneThing(tokens: seq<string>, words: seq<string>, others: seq<string>)
    requires Runs(tokens, words) && Runs(tokens, others)
    ensures words == others
  {
    if tokens != words {
      assert tokens[2..] == words;
    }
    if tokens != others {
      assert tokens[2..] == others;
    }
  }

  lemma AfterSudoExactly(tokens: seq<string>)
    requires tokens != []
    ensures AfterSudo(tokens).Some? ==> Runs(tokens, AfterSudo(tokens).value)
    ensures forall words :: Runs(tokens, words) ==> AfterSudo(tokens) == Some(words)
  {
    if tokens[0] == "sudo" && |tokens| >= 3 && tokens[1] == "-n" {
      assert tokens == ["sudo", "-n"] + tokens[2..];
    }
    forall words | Runs(tokens, words)
      ensures AfterSudo(tokens) == Some(words)
    {
      if tokens != words {
        assert tokens[0] == "sudo" && tokens[1] == "-n" && tokens[2..] == words;
      }
    }
  }

  /** The gate on one command, on what the lexer makes of it: it passes exactly if what it runs is
      on the list. */
  lemma CommandPassesExactly(lex: Lexer, command: string, allow: AllowList)
    ensures RefusalOf(lex, command, allow).None? <==> RunsOnly(lex, command, allow)
  {
    var lexed := lex(Strip(command));
    if lexed.Tokens? && lexed.tokens != [] {
      AfterSudoExactly(lexed.tokens);
      if AfterSudo(lexed.tokens).Some? {
        assert Runs(lexed.tokens, AfterSudo(lexed.tokens).value);
      }
    }
  }

  /** Why a command is refused: the first of the reasons, in this order, that applies. */
  lemma RefusalExactly(lex: Lexer, command: string, allow: AllowList, words: seq<string>)
    ensures var raw, lexed, refusal := Strip(command), lex(Strip(command)), RefusalOf(lex, command, allow);
            if raw == "" then refusal == Some(Empty)
            else if allow.binaries == {} then refusal == Some(NoAllowlist)
            else if lexed.Metachar? then refusal == Some(HasMetachar)
            else if lexed.Unparseable? then refusal == Some(DoesNotParse)
            else if lexed.tokens == [] then refusal == Some(Empty)
            else
              && (refusal == Some(SudoForm) <==> forall w :: !Runs(lexed.tokens, w))
              && (Runs(lexed.tokens, words) ==>
                    && (refusal == Some(DeniedBinary) <==> words[0] in DENY_BINARIES)
                    && (refusal == Some(NotAllowlisted) <==> words[0] !in DENY_BINARIES && words[0] !in allow.binaries)
                    && (refusal == Some(SystemctlVerb) <==>
                          && words[0] !in DENY_BINARIES && words[0] in allow.binaries
                          && words[0] == "systemctl" && !VerbAllowed(words, allow.verbs)))
  {
    var lexed := lex(Strip(command));
    if lexed.Tokens? && lexed.tokens != [] {
      AfterSudoExactly(lexed.tokens);
      if AfterSudo(lexed.tokens).Some? {
        assert Runs(lexed.tokens, AfterSudo(lexed.tokens).value);
      }
    }
  }

  /** Every refused command of a plan, in order. */
  function CommandRefusals(lex: Lexer, commands: seq<string>, allow: AllowList): seq<Refusal> {
    if commands == [] then []
    else
      var last := commands[|commands| - 1];
      var refused := RefusalOf(lex, last, allow);
      CommandRefusals(lex, commands[..|commands| - 1], allow)
      + if refused.Some? then [Refusal(last, refused.value)] else []
  }

  function Refusals(lex: Lexer, commands: seq<string>, allow: AllowList): seq<Refusal> {
    if commands == [] then [Refusal("", NoCommands)]
    else (if |commands| > allow.maxCommands then [Refusal("", TooMany)] else []) + CommandRefusals(lex, commands, allow)
  }

  method PlanRefusals(lex: Lexer, commands: seq<string>, allow: AllowList) returns (out: seq<Refusal>)
    ensures out == Refusals(lex, commands, allow)
  {
    if commands == [] {
      return [Refusal("", NoCommands)];
    }
    out := [];
    if |commands| > allow.maxCommands {
      out := out + [Refusal("", TooMany)];
    }
    ghost var planLevel := out;
    for i := 0 to |commands|
      invariant out == planLevel + CommandRefusals(lex, commands[..i], allow)
    {
      assert commands[..i + 1][..i] == commands[..i];
      var refused := RefusalOf(lex, commands[i], allow);
      if refused.Some? {
        out := out + [Refusal(commands[i], refused.value)];
      }
    }
    assert commands[..|commands|] == commands;
  }

  /** Positions of a plan, in order. */
  ghost predicate Increasing(places: seq<nat>, bound: nat) {
    && (forall k :: 0 <= k < |places| ==> places[k] < bound)
    && (forall k, l :: 0 <= k < l < |places| ==> places[k] < places[l])
  }

  /** `refusals` are those of the commands at `places`: all the commands refused, each with its
      reason, in the order of the plan. */
  ghost predicate RefusedAt(lex: Lexer, commands: seq<string>, allow: AllowList, refusals: seq<Refusal>, places: seq<nat>) {
    && Increasing(places, |commands|) && |refusals| == |places|
    && (forall k :: 0 <= k < |places| ==>
          && refusals[k].command == commands[places[k]]
          && RefusalOf(lex, commands[places[k]], allow) == Some(refusals[k].kind))
    && (forall i :: 0 <= i < |commands| && RefusalOf(lex, commands[i], allow).Some? ==> i in places)
  }

  lemma OneMorePlace(lex: Lexer, commands: seq<string>, allow: AllowList, refusals: seq<Refusal>, places: seq<nat>, last: string)
    requires RefusedAt(lex, commands, allow, refusals, places)
    ensures RefusalOf(lex, last, allow).None? ==> RefusedAt(lex, commands + [last], allow, refusals, places)
    ensures RefusalOf(lex, last, allow).Some? ==>
              RefusedAt(lex, commands + [last], allow, refusals + [Refusal(last, RefusalOf(lex, last, allow).value)],
                        places + [|commands|])
  {
    var more := places + [|commands|];
    assert forall i :: i in places ==> i in more;
    assert |commands| in more by {
      assert more[|places|] == |commands|;
    }
  }

  lemma {:induction false} RefusedPlaces(lex: Lexer, commands: seq<string>, allow: AllowList) returns (places: seq<nat>)
    ensures RefusedAt(lex, commands, allow, CommandRefusals(lex, commands, allow), places)
    decreases |commands|
  {
    places := [];
    if commands != [] {
      var before, last := commands[..|commands| - 1], commands[|commands| - 1];
      places := RefusedPlaces(lex, before, allow);
      OneMorePlace(lex, before, allow, CommandRefusals(lex, before, allow), places, last);
      assert commands == before + [last];
      if RefusalOf(lex, last, allow).Some? {
        places := places + [|before|];
      } else {
        assert CommandRefusals(lex, before, allow) + [] == CommandRefusals(lex, before, allow);
      }
    }
  }

  /** All that `plan_refusals` answers: no commands, or first that there are too many, and then the
      commands refused, in order. */
  lemma RefusalsExactly(lex: Lexer, commands: seq<string>, allow: AllowList)
    ensures commands == [] ==> Refusals(lex, commands, allow) == [Refusal("", NoCommands)]
    ensures commands != [] ==>
              var planLevel := if |commands| > allow.maxCommands then [Refusal("", TooMany)] else [];
              exists rest, places :: Refusals(lex, commands, allow) == planLevel + rest
                                     && RefusedAt(lex, commands, allow, rest, places)
  {
    var places := RefusedPlaces(lex, commands, allow);
  }

  /** `validate_plan` */
  function ValidatePlan(lex: Lexer, commands: seq<string>, allow: AllowList): bool {
    Refusals(lex, commands, allow) == []
  }

  lemma {:induction false} NoCommandRefused(lex: Lexer, commands: seq<string>, allow: AllowList)
    ensures CommandRefusals(lex, commands, allow) == []
       <==> forall i :: 0 <= i < |commands| ==> RefusalOf(lex, commands[i], allow).None?
  {
    if commands != [] {
      NoCommandRefused(lex, commands[..|commands| - 1], allow);
    }
  }

  /** A plan passes exactly when it has commands, not too many, and what every one of them runs is
      on the list. */
  lemma PlanPassesExactly(lex: Lexer, commands: seq<string>, allow: AllowList)
    ensures ValidatePlan(lex, commands, allow)
       <==> && 0 < |commands| <= allow.maxCommands
            && forall i :: 0 <= i < |commands| ==> RunsOnly(lex, commands[i], allow)
  {
    NoCommandRefused(lex, commands, allow);
    forall i | 0 <= i < |commands|
      ensures RefusalOf(lex, commands[i], allow).None? <==> RunsOnly(lex, commands[i], allow)
    {
      CommandPassesExactly(lex, commands[i], allow);
    }
  }

  lemma NamesAreNotEmpty(raw: Raw)
    ensures "" !in SplitList(raw)
  {
    match raw
    case Written(text) => FieldsFromClean(text, "");
    case Listed(names) => StrippedExactly(names, "");
    case _ =>
  }

  /** The floor and the ceiling together: under whatever the database holds, every command of a
      plan that passes runs a binary from the deployed ceiling, never a denied one even if the
      ceiling names it, and systemctl only with a verb, one of the ceiling's; and after a failed
      read no plan passes at all. */
  lemma PassingPlanStaysInside(lex: Lexer, commands: seq<string>, ceiling: Ceiling, binaries: Option<Raw>, verbs: Option<Raw>)
    requires AllowlistFromConfig(ceiling, binaries, verbs).Some?
    requires ValidatePlan(lex, commands, AllowlistFromConfig(ceiling, binaries, verbs).value)
    ensures binaries.Some? && verbs.Some?
    ensures forall i :: 0 <= i < |commands| ==>
              && RunsOnly(lex, commands[i], AllowList(SplitList(ceiling.binaries), SplitList(ceiling.verbs), 0))
              && !(exists words :: Runs(lex(Strip(commands[i])).tokens, words) && words == ["systemctl"])
  {
    var allow := AllowlistFromConfig(ceiling, binaries, verbs).value;
    PlanPassesExactly(lex, commands, allow);
    SelectionOnlyNarrows(ceiling, binaries, verbs);
    NamesAreNotEmpty(ceiling.verbs);
    assert RunsOnly(lex, commands[0], allow);
    forall i | 0 <= i < |commands|
      ensures RunsOnly(lex, commands[i], AllowList(SplitList(ceiling.binaries), SplitList(ceiling.verbs), 0))
      ensures !(exists words :: Runs(lex(Strip(commands[i])).tokens, words) && words == ["systemctl"])
    {
      assert RunsOnly(lex, commands[i], allow);
      var tokens := lex(Strip(commands[i])).tokens;
      var words :| Runs(tokens, words) && words[0] in allow.binaries && words[0] !in DENY_BINARIES
                   && (words[0] == "systemctl" ==> VerbAllowed(words, allow.verbs));
      forall others | Runs(tokens, others)
        ensures others != ["systemctl"]
      {
        RunsOneThing(tokens, words, others);
      }
    }
  }

  /** What the Job may run: each list of the ceiling cut to what is picked of it, the whole of it
      when nothing is picked; at most as many commands as configured, 4 by default, and never
      fewer than one. */
  lemma AllowlistExactly(ceiling: Ceiling, binaries: Raw, verbs: Raw, name: string)
    requires !ceiling.maxCommands.Infinite?
    ensures AllowlistFromConfig(ceiling, Some(binaries), Some(verbs)).Some?
    ensures var allow := AllowlistFromConfig(ceiling, Some(binaries), Some(verbs)).value;
            && (name in allow.binaries <==>
                  Names(ceiling.binaries, name) && ((forall n :: !Names(binaries, n)) || Names(binaries, name)))
            && (name in allow.verbs <==>
                  Names(ceiling.verbs, name) && ((forall n :: !Names(verbs, n)) || Names(verbs, name)))
            && allow.maxCommands == (match ceiling.maxCommands
                                     case Whole(n) => if n >= 1 then n else if n == 0 then 4 else 1
                                     case _ => 4)
  {
    forall raw, n
      ensures n in SplitList(raw) <==> Names(raw, n)
    {
      if raw.Listed? {
        StrippedExactly(raw.names, n);
      }
    }
  }

  /** The list names it: as a part of a text, or as an item, white space aside. */
  predicate Names(raw: Raw, name: string) {
    match raw
    case Written(text) => name in Fields(text)
    case Listed(names) => name != "" && exists i :: 0 <= i < |names| && Strip(names[i]) == name
    case _ => false
  }

  /** What becomes of an edit: refused for its shape; else for the names off the ceiling; else for
      an empty pick, of binaries first; and else stored. */
  lemma EditExactly(ceiling: Ceiling, binaries: Raw, verbs: Raw)
    ensures var edit := StoredSelection(ceiling, binaries, verbs);
            && (edit == Refused(BadShape) <==> binaries.Unusable? || verbs.Unusable?)
            && (edit.Refused? && edit.error.OffCeiling? <==>
                  edit != Refused(BadShape) && !(Chosen(binaries) <= SplitList(ceiling.binaries)
                                                 && Chosen(verbs) <= SplitList(ceiling.verbs)))
            && (edit == Refused(NoBinary) <==> edit != Refused(BadShape) && Chosen(binaries) == {}
                                               && Chosen(verbs) <= SplitList(ceiling.verbs))
            && (edit == Refused(NoVerb) ==> Chosen(binaries) != {} && Chosen(verbs) == {})
            && (edit.Stored? ==> Chosen(binaries) != {} && Chosen(verbs) != {})
  {
    OffListEmpty(NameList(binaries), SplitList(ceiling.binaries));
    OffListEmpty(NameList(verbs), SplitList(ceiling.verbs));
    SetOfEmpty(NameList(binaries));
    SetOfEmpty(NameList(verbs));
  }

  lemma SetOfEmpty(names: seq<string>)
    ensures SetOf(names) == {} <==> names == []
  {
    if names != [] {
      assert names[0] in SetOf(names);
    }
  }

  /** The names an edit is refused for: exactly those named and off the ceiling, in order, the
      binaries first. */
  lemma RefusedNames(ceiling: Ceiling, binaries: Raw, verbs: Raw, name: string) returns (offB: seq<string>, offV: seq<string>)
    ensures var edit := StoredSelection(ceiling, binaries, verbs);
            edit.Refused? && edit.error.OffCeiling? ==> edit.error.names == offB + offV
    ensures Ordered(offB) && (name in offB <==> Names(binaries, name) && name !in SplitList(ceiling.binaries))
    ensures Ordered(offV) && (name in offV <==> Names(verbs, name) && name !in SplitList(ceiling.verbs))
  {
    offB, offV := OffList(NameList(binaries), SplitList(ceiling.binaries)), OffList(NameList(verbs), SplitList(ceiling.verbs));
    ChosenExactly(binaries, name);
    ChosenExactly(verbs, name);
    OffListExactly(NameList(binaries), SplitList(ceiling.binaries), name);
    OffListExactly(NameList(verbs), SplitList(ceiling.verbs), name);
  }

  lemma ChosenExactly(raw: Raw, name: string)
    ensures name in Chosen(raw) <==> Names(raw, name)
    ensures Ordered(NameList(raw))
  {
    match raw
    case Written(text) =>
      SortUniqueMembers(Fields(text));
      SortUniqueOrdered(Fields(text));
      assert name in SetOf(SortUnique(Fields(text))) <==> name in SetOf(Fields(text));
    case Listed(names) =>
      SortUniqueMembers(Stripped(names));
      SortUniqueOrdered(Stripped(names));
      StrippedExactly(names, name);
      assert name in SetOf(SortUnique(Stripped(names))) <==> name in SetOf(Stripped(names));
    case _ =>
  }

  lemma {:induction false} OffListExactly(names: seq<string>, ceiling: set<string>, name: string)
    requires Ordered(names)
    ensures Ordered(OffList(names, ceiling))
    ensures name in OffList(names, ceiling) <==> name in names && name !in ceiling
  {
    if names != [] {
      var rest := names[1..];
      assert forall i :: 0 <= i < |rest| ==> rest[i] == names[i + 1];
      OffListExactly(rest, ceiling, name);
      forall i | 0 <= i < |OffList(rest, ceiling)|
        ensures Leq(names[0], OffList(rest, ceiling)[i]) && names[0] != OffList(rest, ceiling)[i]
      {
        var n := OffList(rest, ceiling)[i];
        OffListExactly(rest, ceiling, n);
        var k :| 0 <= k < |rest| && rest[k] == n;
        assert names[k + 1] == n;
      }
    }
  }
}
