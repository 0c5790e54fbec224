/** `escape_delimiters` (agent/prompt_injection.py): delimiters removed, code fences broken, and
    upper-case role and verdict markers at the start of a line neutralized. */
module Escaping {
  import opened Wrappers
  import opened Text
  import opened Delimiters

  // ---- code fences ----------------------------------------------------------------

  const TICK := '`'
  const BROKEN_FENCE: string := [TICK, ZERO_WIDTH, TICK, TICK]

  predicate StartsWith(s: string, prefix: string) {
    |prefix| <= |s| && s[..|prefix|] == prefix
  }

  /** `replace` of three backticks, left to right. */
  function WithoutFences(s: string): string {
    if s == "" then ""
    else if StartsWith(s, "```") then BROKEN_FENCE + WithoutFences(s[3..])
    else [s[0]] + WithoutFences(s[1..])
  }

  function Max(a: nat, b: nat): nat {
    if a < b then b else a
  }

  /** The longest run of backticks, given the length of the run that ends where `s` begins. */
  function LongestRun(s: string, before: nat): nat {
    if s == "" then before
    else if s[0] == TICK then LongestRun(s[1..], before + 1)
    else Max(before, LongestRun(s[1..], 0))
  }

  lemma {:induction false} LongestRunAtLeast(s: string, before: nat)
    ensures LongestRun(s, before) >= before
    decreases |s|
  {
    if s != "" && s[0] == TICK {
      LongestRunAtLeast(s[1..], before + 1);
    }
  }

  lemma {:induction false} RunAfterPlain(plain: string, rest: string, before: nat)
    requires plain != "" && TICK !in plain
    ensures LongestRun(plain + rest, before) == Max(before, LongestRun(rest, 0))
    decreases |plain|
  {
    assert (plain + rest)[1..] == plain[1..] + rest;
    if |plain| == 1 {
      assert plain[1..] + rest == rest;
    } else {
      RunAfterPlain(plain[1..], rest, 0);
    }
  }

  lemma RunAfterTick(rest: string, before: nat)
    ensures LongestRun([TICK] + rest, before) == LongestRun(rest, before + 1)
  {
    assert ([TICK] + rest)[1..] == rest;
  }

  lemma BrokenFenceRun(rest: string, before: nat)
    ensures LongestRun(BROKEN_FENCE + rest, before) == Max(before + 1, LongestRun(rest, 2))
  {
    RunAfterTick(rest, 1);
    RunAfterTick([TICK] + rest, 0);
    var tail := [TICK] + ([TICK] + rest);
    RunAfterPlain([ZERO_WIDTH], tail, before + 1);
    RunAfterTick([ZERO_WIDTH] + tail, before);
    assert BROKEN_FENCE + rest == [TICK] + ([ZERO_WIDTH] + tail);
  }

  lemma FenceMeans(s: string)
    ensures StartsWith(s, "```") <==> |s| >= 3 && s[0] == TICK && s[1] == TICK && s[2] == TICK
  {
    if |s| >= 3 {
      assert s[..3] == [s[0], s[1], s[2]];
    }
  }

  lemma FenceRun(s: string, before: nat)
    requires StartsWith(s, "```")
    ensures LongestRun(s, before) == LongestRun(s[3..], before + 3)
  {
    FenceMeans(s);
    RunAfterTick(s[3..], before + 2);
    RunAfterTick([TICK] + s[3..], before + 1);
    RunAfterTick([TICK] + ([TICK] + s[3..]), before);
    assert s == [TICK] + ([TICK] + ([TICK] + s[3..]));
  }

  /** Breaking fences leaves a run of three backticks exactly where there was a run of four or
      more: the run that a replacement ends with joins what follows it. The second clause is
      the same statement right behind a replacement. */
  lemma {:induction false} FencesLeft(s: string)
    ensures LongestRun(WithoutFences(s), 0) >= 3 <==> LongestRun(s, 0) >= 4
    ensures LongestRun(WithoutFences(s), 2) >= 3 <==> LongestRun(s, 3) >= 4
    decreases |s|
  {
    var t := WithoutFences(s);
    if s == "" {
    } else if StartsWith(s, "```") {
      FencesLeft(s[3..]);
      BrokenFenceRun(WithoutFences(s[3..]), 0);
      BrokenFenceRun(WithoutFences(s[3..]), 2);
      FenceRun(s, 0);
      FenceRun(s, 3);
      LongestRunAtLeast(s[3..], 6);
    } else {
      assert t[1..] == WithoutFences(s[1..]);
      FencesLeft(s[1..]);
      if s[0] == TICK {
        LongestRunAtLeast(t[1..], 3);
        LongestRunAtLeast(s[1..], 4);
        ShortRun(s);
      }
    }
  }

  /** The head of a run too short to be a fence. */
  lemma ShortRun(s: string)
    requires s != "" && s[0] == TICK && !StartsWith(s, "```")
    ensures LongestRun(WithoutFences(s), 0) >= 3 <==> LongestRun(s, 0) >= 4
    decreases |s|, 0
  {
    var t := WithoutFences(s);
    FenceMeans(s);
    assert t[1..] == WithoutFences(s[1..]);
    if |s| >= 2 && s[1] == TICK {
      assert |s| >= 3 ==> s[2] != TICK;
      FenceMeans(s[1..]);
      assert t[1..][1..] == WithoutFences(s[1..][1..]);
      AfterShortRun(s[2..], 2);
      assert s[1..][1..] == s[2..];
    } else {
      AfterShortRun(s[1..], 1);
    }
  }

  lemma AfterShortRun(s: string, before: nat)
    requires before <= 2 && (s == "" || s[0] != TICK)
    ensures LongestRun(WithoutFences(s), before) >= 3 <==> LongestRun(s, before) >= 4
    decreases |s|, 1
  {
    if s != "" {
      assert WithoutFences(s)[1..] == WithoutFences(s[1..]);
      FencesLeft(s[1..]);
    }
  }

  lemma {:induction false} WithoutFencesCopies(s: string)
    ensures CopiedUpTo(Barrier, s, WithoutFences(s))
    decreases |s|
  {
    if s != "" {
      if StartsWith(s, "```") {
        CopyToStop(Barrier, s, 0, WithoutFences(s));
      } else {
        WithoutFencesCopies(s[1..]);
        CopyOne(Barrier, s[0], s[1..], WithoutFences(s[1..]));
        assert s == [s[0]] + s[1..];
      }
    }
  }

  lemma {:induction false} DelimitersInSuffix(s: string, n: nat)
    requires DelimitersIn(s) == [] && n <= |s|
    ensures DelimitersIn(s[n..]) == []
    decreases n
  {
    if n == 0 {
      assert s[0..] == s;
    } else {
      DelimitersInSuffix(s[1..], n - 1);
      assert s[1..][n - 1..] == s[n..];
    }
  }

  /** The induction step of the two lemmas below, where a character is copied. */
  lemma CopyMakesNoDelimiter(s: string, t: string)
    requires s != "" && t != "" && DelimitersIn(s) == [] && CopiedUpTo(Barrier, s, t)
    requires DelimitersIn(t[1..]) == []
    ensures DelimitersIn(t) == []
  {
    if MatchFrom(BEGIN, t).Some? {
      CopiesMatch(s, t);
    }
  }

  lemma {:induction false} FencesMakeNoDelimiter(s: string)
    requires DelimitersIn(s) == []
    ensures DelimitersIn(WithoutFences(s)) == []
    decreases |s|
  {
    if s != "" {
      if StartsWith(s, "```") {
        DelimitersInSuffix(s, 3);
        FencesMakeNoDelimiter(s[3..]);
        DelimitersAfterPlain(BROKEN_FENCE, WithoutFences(s[3..]));
      } else {
        FencesMakeNoDelimiter(s[1..]);
        WithoutFencesCopies(s);
        assert WithoutFences(s)[1..] == WithoutFences(s[1..]);
        CopyMakesNoDelimiter(s, WithoutFences(s));
      }
    }
  }

  // ---- fake markers ---------------------------------------------------------------------

  const MARKER_WORDS: seq<string> := [
    "ASSISTANT", "SYSTEM", "USER", "HUMAN", "AI",
    "STATUS", "VERDICT", "APPROVED", "RECOMMENDATION", "FIX", "CONFIRM",
    "REJECT", "DOWNGRADE"]

  predicate IsBlank(c: char) {
    c == ' ' || c == '\t'
  }

  function Blanks(s: string): (n: nat)
    ensures n <= |s| && forall i :: 0 <= i < n ==> IsBlank(s[i])
    ensures n < |s| ==> !IsBlank(s[n])
  {
    if s != "" && IsBlank(s[0]) then 1 + Blanks(s[1..]) else 0
  }

  predicate WordAndColon(s: string, word: string) {
    StartsWith(s, word) && IsColonNext(s[|word|..])
  }

  /** The first of the words that `s` starts with and that a colon follows, blanks between. */
  function WordBeforeColon(s: string, words: seq<string>): (w: Option<string>)
    ensures w.Some? ==> w.value in words && WordAndColon(s, w.value)
  {
    if words == [] then None
    else if WordAndColon(s, words[0]) then Some(words[0])
    else WordBeforeColon(s, words[1..])
  }

  predicate IsColonNext(s: string) {
    Blanks(s) < |s| && s[Blanks(s)] == ':'
  }

  /** A marker at the head of a line: how much of it is kept, and how long it is with its colon. */
  function Marker(s: string): (m: Option<(nat, nat)>)
    ensures m.Some? ==> m.value.0 < m.value.1 <= |s|
  {
    var rest := s[Blanks(s)..];
    match WordBeforeColon(rest, MARKER_WORDS)
    case None => None
    case Some(word) => Some((Blanks(s) + |word|, Blanks(s) + |word| + Blanks(rest[|word|..]) + 1))
  }

  const ESCAPED_NEWLINE: string := ['\\', 'n']

  /** A marker that starts here: at the start of a line, or behind an escaped newline. */
  function MarkerHere(s: string, lineStart: bool): (m: Option<(nat, nat)>)
    ensures m.Some? ==> m.value.0 < m.value.1 <= |s|
  {
    if lineStart && Marker(s).Some? then Marker(s)
    else if StartsWith(s, ESCAPED_NEWLINE) && Marker(s[2..]).Some? then
      Some((2 + Marker(s[2..]).value.0, 2 + Marker(s[2..]).value.1))
    else None
  }

  /** The last substitution: the word keeps its place, the blanks before the colon go, and a
      zero-width space comes between the two. */
  function WithoutMarkers(s: string, lineStart: bool): string
    decreases |s|
  {
    if s == "" then ""
    else match MarkerHere(s, lineStart)
      case Some((kept, length)) => s[..kept] + [ZERO_WIDTH, ':'] + WithoutMarkers(s[length..], false)
      case None => [s[0]] + WithoutMarkers(s[1..], s[0] == '\n')
  }

  /** `escape_delimiters` */
  function Escape(s: string): string {
    WithoutMarkers(WithoutFences(WithoutDelimiters(s)), true)
  }

  // ---- what the kept part of a marker is made of -------------------------------------------

  predicate Inert(c: char) {
    c != '<' && c != TICK && c != '\n' && !Barrier(c)
  }

  lemma WordsAreCapitals(word: string)
    requires word in MARKER_WORDS
    ensures word != "" && forall i :: 0 <= i < |word| ==> 'A' <= word[i] <= 'Z'
  {
  }

  lemma WordIsLetters(s: string, word: string)
    requires word in MARKER_WORDS && StartsWith(s, word)
    ensures word != "" && forall i :: 0 <= i < |word| ==> 'A' <= s[i] <= 'Z'
  {
    WordsAreCapitals(word);
    assert forall i :: 0 <= i < |word| ==> s[i] == s[..|word|][i];
  }

  /** What is kept is inert, and what goes is blanks and a colon. */
  predicate InertTo(s: string, kept: nat, length: nat)
    requires kept <= length <= |s|
  {
    && kept > 0
    && (forall i :: 0 <= i < kept ==> Inert(s[i]))
    && (forall i :: kept <= i < length ==> s[i] == ':' || IsBlank(s[i]))
  }

  lemma KeptIsInert(s: string, indent: nat, kept: nat)
    requires indent <= kept <= |s|
    requires forall i :: 0 <= i < indent ==> IsBlank(s[i])
    requires forall i :: 0 <= i < kept - indent ==> 'A' <= s[indent..][i] <= 'Z'
    ensures forall i :: 0 <= i < kept ==> Inert(s[i])
  {
    forall i | indent <= i < kept
      ensures Inert(s[i])
    {
      assert s[i] == s[indent..][i - indent];
    }
  }

  lemma DroppedIsBlank(s: string, indent: nat, word: string)
    requires indent <= |s| && WordAndColon(s[indent..], word)
    ensures var kept := indent + |word|;
            var last := kept + Blanks(s[indent..][|word|..]);
            && last < |s| && s[last] == ':' && forall i :: kept <= i < last ==> IsBlank(s[i])
  {
    var kept, tail := indent + |word|, s[indent..][|word|..];
    forall i | kept <= i < |s|
      ensures s[i] == tail[i - kept]
    {
    }
  }

  lemma PartsAreInert(s: string, indent: nat, word: string, kept: nat, length: nat)
    requires indent <= |s| && (forall i :: 0 <= i < indent ==> IsBlank(s[i]))
    requires word in MARKER_WORDS && WordAndColon(s[indent..], word)
    requires kept == indent + |word| && length == kept + Blanks(s[indent..][|word|..]) + 1 <= |s|
    ensures InertTo(s, kept, length) && s[length - 1] == ':'
  {
    WordIsLetters(s[indent..], word);
    KeptIsInert(s, indent, kept);
    DroppedIsBlank(s, indent, word);
  }

  lemma MarkerIsInert(s: string)
    requires Marker(s).Some?
    ensures InertTo(s, Marker(s).value.0, Marker(s).value.1)
    ensures s[Marker(s).value.1 - 1] == ':'
  {
    var word := WordBeforeColon(s[Blanks(s)..], MARKER_WORDS).value;
    PartsAreInert(s, Blanks(s), word, Marker(s).value.0, Marker(s).value.1);
  }

  lemma ShiftInert(s: string, kept: nat, length: nat)
    requires 2 <= |s| && Inert(s[0]) && Inert(s[1])
    requires kept <= length <= |s[2..]| && InertTo(s[2..], kept, length)
    ensures InertTo(s, kept + 2, length + 2)
  {
    forall i | 2 <= i < |s|
      ensures s[i] == s[2..][i - 2]
    {
    }
  }

  lemma MarkerHereIsInert(s: string, lineStart: bool)
    requires MarkerHere(s, lineStart).Some?
    ensures InertTo(s, MarkerHere(s, lineStart).value.0, MarkerHere(s, lineStart).value.1)
  {
    if lineStart && Marker(s).Some? {
      MarkerIsInert(s);
    } else {
      MarkerIsInert(s[2..]);
      assert s[0] == s[..2][0] && s[1] == s[..2][1];
      ShiftInert(s, Marker(s[2..]).value.0, Marker(s[2..]).value.1);
    }
  }

  lemma InertPieces(s: string, kept: nat, length: nat)
    requires kept <= length <= |s| && InertTo(s, kept, length)
    ensures '<' !in s[..kept] + [ZERO_WIDTH, ':'] && TICK !in s[..kept] + [ZERO_WIDTH, ':'] && TICK !in s[..length]
  {
    assert forall c :: c in s[..kept] ==> Inert(c);
    assert forall c :: c in s[..length] ==> Inert(c) || c == ':' || IsBlank(c);
  }

  lemma MarkerUnfolds(s: string, lineStart: bool, kept: nat, length: nat)
    requires s != "" && MarkerHere(s, lineStart) == Some((kept, length))
    ensures WithoutMarkers(s, lineStart) == s[..kept] + [ZERO_WIDTH, ':'] + WithoutMarkers(s[length..], false)
  {
  }

  lemma SplitAt(s: string, n: nat)
    requires 0 < n <= |s|
    ensures s == s[..n] + s[n..] && s[..n] != ""
  {
  }

  /** Where a marker is replaced: the text and its replacement, each as its two parts. */
  lemma MarkerReplaced(s: string, lineStart: bool)
    requires s != "" && MarkerHere(s, lineStart).Some?
    ensures var (kept, length) := MarkerHere(s, lineStart).value;
            var piece := s[..kept] + [ZERO_WIDTH, ':'];
            && s == s[..length] + s[length..]
            && WithoutMarkers(s, lineStart) == piece + WithoutMarkers(s[length..], false)
            && '<' !in piece && TICK !in piece && TICK !in s[..length] && s[..length] != ""
  {
    var (kept, length) := MarkerHere(s, lineStart).value;
    MarkerHereIsInert(s, lineStart);
    InertPieces(s, kept, length);
    SplitAt(s, length);
    MarkerUnfolds(s, lineStart, kept, length);
  }

  lemma MarkerCopied(s: string, lineStart: bool)
    requires s != "" && MarkerHere(s, lineStart).None?
    ensures WithoutMarkers(s, lineStart) == [s[0]] + WithoutMarkers(s[1..], s[0] == '\n')
    ensures WithoutMarkers(s, lineStart)[1..] == WithoutMarkers(s[1..], s[0] == '\n')
    ensures s == [s[0]] + s[1..]
  {
  }

  lemma {:induction false} WithoutMarkersCopies(s: string, lineStart: bool)
    ensures CopiedUpTo(Barrier, s, WithoutMarkers(s, lineStart))
    decreases |s|
  {
    if s != "" {
      if MarkerHere(s, lineStart).Some? {
        MarkerReplaced(s, lineStart);
        CopyToStop(Barrier, s, MarkerHere(s, lineStart).value.0, WithoutMarkers(s, lineStart));
      } else {
        MarkerCopied(s, lineStart);
        WithoutMarkersCopies(s[1..], s[0] == '\n');
        CopyOne(Barrier, s[0], s[1..], WithoutMarkers(s[1..], s[0] == '\n'));
      }
    }
  }

  lemma {:induction false} MarkersMakeNoDelimiter(s: string, lineStart: bool)
    requires DelimitersIn(s) == []
    ensures DelimitersIn(WithoutMarkers(s, lineStart)) == []
    decreases |s|
  {
    if s != "" {
      if MarkerHere(s, lineStart).Some? {
        var (kept, length) := MarkerHere(s, lineStart).value;
        MarkerReplaced(s, lineStart);
        DelimitersInSuffix(s, length);
        MarkersMakeNoDelimiter(s[length..], false);
        DelimitersAfterPlain(s[..kept] + [ZERO_WIDTH, ':'], WithoutMarkers(s[length..], false));
      } else {
        MarkerCopied(s, lineStart);
        MarkersMakeNoDelimiter(s[1..], s[0] == '\n');
        WithoutMarkersCopies(s, lineStart);
        CopyMakesNoDelimiter(s, WithoutMarkers(s, lineStart));
      }
    }
  }

  /** An escaped text contains no delimiter and nothing that reads as one, and the later
      substitutions put none together. */
  lemma EscapedHasNoDelimiter(s: string)
    ensures DelimitersIn(Escape(s)) == []
  {
    NoDelimiterSurvives(s);
    FencesMakeNoDelimiter(WithoutDelimiters(s));
    MarkersMakeNoDelimiter(WithoutFences(WithoutDelimiters(s)), true);
  }

  // ---- backticks through the whole escape --------------------------------------------------

  lemma RunStep(s: string, before: nat)
    requires s != ""
    ensures LongestRun(s, before) == if s[0] == TICK then LongestRun(s[1..], before + 1) else Max(before, LongestRun(s[1..], 0))
  {
  }

  lemma {:induction false} MarkersKeepRuns(s: string, lineStart: bool, before: nat)
    ensures LongestRun(WithoutMarkers(s, lineStart), before) == LongestRun(s, before)
    decreases |s|
  {
    if s != "" {
      if MarkerHere(s, lineStart).Some? {
        var (kept, length) := MarkerHere(s, lineStart).value;
        MarkerReplaced(s, lineStart);
        MarkersKeepRuns(s[length..], false, 0);
        RunAfterPlain(s[..kept] + [ZERO_WIDTH, ':'], WithoutMarkers(s[length..], false), before);
        RunAfterPlain(s[..length], s[length..], before);
      } else {
        MarkerCopied(s, lineStart);
        MarkersKeepRuns(s[1..], s[0] == '\n', before + 1);
        MarkersKeepRuns(s[1..], s[0] == '\n', 0);
        RunStep(s, before);
        RunStep(WithoutMarkers(s, lineStart), before);
      }
    }
  }

  lemma {:induction false} DelimitersKeepRuns(s: string, before: nat)
    ensures LongestRun(WithoutDelimiters(s), before) == LongestRun(s, before)
    decreases |s|
  {
    if s != "" {
      if MatchFrom(BEGIN, s).Some? {
        MatchedHasNoBarrier(BEGIN, s);
        KindOfMatch(BEGIN, s);
        var n := MatchFrom(BEGIN, s).value.0;
        DelimitersKeepRuns(s[n..], 0);
        RunAfterPlain(Replacement(MatchFrom(BEGIN, s).value.1), WithoutDelimiters(s[n..]), before);
        RunAfterPlain(s[..n], s[n..], before);
        assert s == s[..n] + s[n..];
      } else {
        assert WithoutDelimiters(s)[1..] == WithoutDelimiters(s[1..]);
        DelimitersKeepRuns(s[1..], before + 1);
        DelimitersKeepRuns(s[1..], 0);
      }
    }
  }

  /** An escaped text contains three backticks in a row exactly if the text itself contained
      four: a plain fence is broken, and a longer run is not. */
  lemma FenceSurvivesExactly(s: string)
    ensures LongestRun(Escape(s), 0) >= 3 <==> LongestRun(s, 0) >= 4
  {
    DelimitersKeepRuns(s, 0);
    FencesLeft(WithoutDelimiters(s));
    MarkersKeepRuns(WithoutFences(WithoutDelimiters(s)), true, 0);
  }

  // ---- no marker is left ---------------------------------------------------------------------

  /** No marker at the start of a line of `s`, nor behind an escaped newline. */
  predicate MarkerFree(s: string, lineStart: bool) {
    s == "" || (MarkerHere(s, lineStart).None? && MarkerFree(s[1..], s[0] == '\n'))
  }

  lemma MarkerHereEndsInColon(s: string, lineStart: bool)
    requires MarkerHere(s, lineStart).Some?
    ensures s[MarkerHere(s, lineStart).value.1 - 1] == ':'
    ensures ClearTo(IsZeroWidth, s, MarkerHere(s, lineStart).value.1)
  {
    var (kept, length) := MarkerHere(s, lineStart).value;
    if lineStart && Marker(s).Some? {
      MarkerIsInert(s);
    } else {
      MarkerIsInert(s[2..]);
      assert s[length - 1] == s[2..][length - 3];
    }
    MarkerHereIsInert(s, lineStart);
  }

  predicate IsZeroWidth(c: char) {
    c == ZERO_WIDTH
  }

  lemma EscapedNewlineMeans(s: string)
    ensures StartsWith(s, ESCAPED_NEWLINE) <==> |s| >= 2 && s[0] == '\\' && s[1] == 'n'
  {
    if |s| >= 2 {
      assert s[..2] == [s[0], s[1]];
    }
  }

  /** Behind a stretch that was kept, the replacement hides every marker it could start. */
  lemma {:induction false} KeptIsMarkerFree(kept: string, rest: string, lineStart: bool)
    requires forall i :: 0 <= i < |kept| ==> Inert(kept[i])
    requires MarkerFree(rest, false)
    ensures MarkerFree(kept + ([ZERO_WIDTH, ':'] + rest), lineStart)
    decreases |kept|
  {
    var t := kept + ([ZERO_WIDTH, ':'] + rest);
    assert t[|kept|] == ZERO_WIDTH && forall i :: 0 <= i < |kept| ==> t[i] != ':';
    if MarkerHere(t, lineStart).Some? {
      MarkerHereEndsInColon(t, lineStart);
      assert false;
    }
    if kept == "" {
      assert t[1..] == [':'] + rest;
      assert t[1..][1..] == rest;
      EscapedNewlineMeans([':'] + rest);
    } else {
      assert t[1..] == kept[1..] + ([ZERO_WIDTH, ':'] + rest);
      KeptIsMarkerFree(kept[1..], rest, false);
    }
  }

  /** Until the first zero-width space, the last substitution copies. */
  lemma {:induction false} WithoutMarkersCopiesToZeroWidth(s: string, lineStart: bool)
    ensures CopiedUpTo(IsZeroWidth, s, WithoutMarkers(s, lineStart))
    decreases |s|
  {
    if s != "" {
      match MarkerHere(s, lineStart)
      case Some((kept, length)) =>
        CopyToStop(IsZeroWidth, s, kept, WithoutMarkers(s, lineStart));
      case None =>
        MarkerCopied(s, lineStart);
        WithoutMarkersCopiesToZeroWidth(s[1..], s[0] == '\n');
        CopyOne(IsZeroWidth, s[0], s[1..], WithoutMarkers(s[1..], s[0] == '\n'));
    }
  }

  lemma {:induction false} BlanksAreLocal(s: string, t: string, n: nat)
    requires n <= |s| && n <= |t| && s[..n] == t[..n] && Blanks(s) < n
    ensures Blanks(t) == Blanks(s)
    decreases |s|
  {
    assert s[..n][0] == t[..n][0];
    if IsBlank(s[0]) {
      assert s[1..][..n - 1] == s[..n][1..] == t[..n][1..] == t[1..][..n - 1];
      BlanksAreLocal(s[1..], t[1..], n - 1);
    }
  }

  lemma ColonIsLocal(s: string, t: string, n: nat)
    requires n <= |s| && n <= |t| && s[..n] == t[..n] && IsColonNext(s) && Blanks(s) < n
    ensures IsColonNext(t)
  {
    BlanksAreLocal(s, t, n);
    assert s[..n][Blanks(s)] == t[..n][Blanks(s)];
  }

  lemma {:induction false} WordIsFound(s: string, words: seq<string>, word: string)
    requires word in words && WordAndColon(s, word)
    ensures WordBeforeColon(s, words).Some?
  {
    if words[0] != word && !WordAndColon(s, words[0]) {
      WordIsFound(s, words[1..], word);
    }
  }

  lemma SameSlice(s: string, t: string, n: nat, i: nat)
    requires i <= n <= |s| && n <= |t| && s[..n] == t[..n]
    ensures s[i..][..n - i] == t[i..][..n - i]
  {
    assert s[i..][..n - i] == s[..n][i..];
    assert t[i..][..n - i] == t[..n][i..];
  }

  lemma WordIsLocal(s: string, t: string, word: string, n: nat)
    requires n <= |s| && n <= |t| && s[..n] == t[..n]
    requires WordAndColon(s, word) && |word| + Blanks(s[|word|..]) < n
    ensures WordAndColon(t, word)
  {
    SameSlice(s, t, n, |word|);
    assert t[..|word|] == t[..n][..|word|] == s[..n][..|word|] == s[..|word|];
    ColonIsLocal(s[|word|..], t[|word|..], n - |word|);
  }

  /** A marker depends only on the text it covers. */
  lemma MarkerIsLocal(s: string, t: string, n: nat)
    requires Marker(s).Some? && n == Marker(s).value.1 && n <= |s| && n <= |t| && s[..n] == t[..n]
    ensures Marker(t).Some?
  {
    var indent := Blanks(s);
    var word := WordBeforeColon(s[indent..], MARKER_WORDS).value;
    BlanksAreLocal(s, t, n);
    SameSlice(s, t, n, indent);
    EndIsLocal(s[indent..], t[indent..], word, n - indent);
  }

  lemma EndIsLocal(s: string, t: string, word: string, n: nat)
    requires n <= |s| && n <= |t| && s[..n] == t[..n]
    requires word in MARKER_WORDS && WordAndColon(s, word) && |word| + Blanks(s[|word|..]) < n
    ensures WordBeforeColon(t, MARKER_WORDS).Some?
  {
    WordIsLocal(s, t, word, n);
    WordIsFound(t, MARKER_WORDS, word);
  }

  lemma PrefixIsLocal(s: string, t: string, length: nat, n: nat)
    requires n <= length <= |s| && length <= |t| && s[..length] == t[..length]
    ensures s[..n] == t[..n]
  {
    assert t[..n] == t[..length][..n] == s[..length][..n] == s[..n];
  }

  lemma NewlineMarkerIsLocal(s: string, t: string, length: nat)
    requires StartsWith(s, ESCAPED_NEWLINE) && Marker(s[2..]).Some? && length == 2 + Marker(s[2..]).value.1
    requires length <= |s| && length <= |t| && s[..length] == t[..length]
    ensures StartsWith(t, ESCAPED_NEWLINE) && Marker(t[2..]).Some?
  {
    SameSlice(s, t, length, 2);
    MarkerIsLocal(s[2..], t[2..], length - 2);
    PrefixIsLocal(s, t, length, 2);
  }

  lemma MarkerHereIsLocal(s: string, t: string, lineStart: bool)
    requires MarkerHere(s, lineStart).Some? && MarkerHere(s, lineStart).value.1 <= |t|
    requires s[..MarkerHere(s, lineStart).value.1] == t[..MarkerHere(s, lineStart).value.1]
    ensures MarkerHere(t, lineStart).Some?
  {
    if lineStart && Marker(s).Some? {
      MarkerIsLocal(s, t, MarkerHere(s, lineStart).value.1);
    } else {
      NewlineMarkerIsLocal(s, t, MarkerHere(s, lineStart).value.1);
    }
  }

  /** Where a character was copied, no marker starts: it would have started there before. */
  lemma CopiedStartsNoMarker(s: string, lineStart: bool)
    requires s != "" && MarkerHere(s, lineStart).None?
    ensures MarkerHere(WithoutMarkers(s, lineStart), lineStart).None?
  {
    var t := WithoutMarkers(s, lineStart);
    WithoutMarkersCopiesToZeroWidth(s, lineStart);
    if MarkerHere(t, lineStart).Some? {
      MarkerHereEndsInColon(t, lineStart);
      MarkerHereIsLocal(t, s, lineStart);
    }
  }

  lemma MarkerFreeCons(t: string, lineStart: bool)
    requires t != "" && MarkerHere(t, lineStart).None? && MarkerFree(t[1..], t[0] == '\n')
    ensures MarkerFree(t, lineStart)
  {
  }

  lemma InertPrefix(s: string, kept: nat, length: nat)
    requires kept <= length <= |s| && InertTo(s, kept, length)
    ensures forall i :: 0 <= i < |s[..kept]| ==> Inert(s[..kept][i])
  {
  }

  lemma ReplacedIsMarkerFree(s: string, lineStart: bool, kept: nat, length: nat, rest: string)
    requires s != "" && MarkerHere(s, lineStart) == Some((kept, length))
    requires rest == WithoutMarkers(s[length..], false) && MarkerFree(rest, false)
    ensures MarkerFree(WithoutMarkers(s, lineStart), lineStart)
  {
    MarkerHereIsInert(s, lineStart);
    InertPrefix(s, kept, length);
    MarkerReplaced(s, lineStart);
    Regroup(s[..kept], [ZERO_WIDTH, ':'], rest);
    KeptIsMarkerFree(s[..kept], rest, lineStart);
  }

  /** After the last substitution no marker is left, and none has been made. */
  lemma {:induction false} NoMarkerSurvives(s: string, lineStart: bool)
    ensures MarkerFree(WithoutMarkers(s, lineStart), lineStart)
    decreases |s|
  {
    if s != "" {
      if MarkerHere(s, lineStart).Some? {
        var (kept, length) := MarkerHere(s, lineStart).value;
        NoMarkerSurvives(s[length..], false);
        ReplacedIsMarkerFree(s, lineStart, kept, length, WithoutMarkers(s[length..], false));
      } else {
        MarkerCopied(s, lineStart);
        NoMarkerSurvives(s[1..], s[0] == '\n');
        CopiedStartsNoMarker(s, lineStart);
        MarkerFreeCons(WithoutMarkers(s, lineStart), lineStart);
      }
    }
  }

  /** An escaped text carries no upper-case role or verdict marker at the start of a line. */
  lemma EscapedHasNoMarker(s: string)
    ensures MarkerFree(Escape(s), true)
  {
    NoMarkerSurvives(WithoutFences(WithoutDelimiters(s)), true);
  }
}
