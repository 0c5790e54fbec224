/** What `escape_delimiters` (agent/prompt_injection.py) does to a text, in terms of the text: what
    is a marker, what replaces it, and what is left as it was. */
module EscapedText {
  import opened Wrappers
  import opened Text
  import opened Delimiters
  import opened Escaping

  // ---- what a marker is -------------------------------------------------------------

  /** `indent` blanks, one of the words in upper case, `gap` blanks and a colon. */
  predicate MarkerShape(s: string, indent: nat, word: string, gap: nat) {
    && indent + |word| + gap < |s| && word in MARKER_WORDS
    && (forall i :: 0 <= i < indent ==> s[i] == ' ' || s[i] == '\t')
    && s[indent..indent + |word|] == word
    && (forall i :: indent + |word| <= i < indent + |word| + gap ==> s[i] == ' ' || s[i] == '\t')
    && s[indent + |word| + gap] == ':'
  }

  lemma MarkerWordsExactly(word: string)
    ensures word in MARKER_WORDS <==>
              word in {"ASSISTANT", "SYSTEM", "USER", "HUMAN", "AI", "STATUS", "VERDICT", "APPROVED", "RECOMMENDATION",
                       "FIX", "CONFIRM", "REJECT", "DOWNGRADE"}
  {
  }

  lemma {:induction false} BlanksAre(s: string, n: nat)
    requires n < |s| && (forall i :: 0 <= i < n ==> IsBlank(s[i])) && !IsBlank(s[n])
    ensures Blanks(s) == n
    decreases |s|
  {
    if n > 0 {
      BlanksAre(s[1..], n - 1);
    }
  }

  lemma AfterWord(s: string, word: string)
    requires WordAndColon(s, word)
    ensures |word| < |s| && (s[|word|] == ':' || IsBlank(s[|word|]))
  {
    assert s[|word|..][0] == s[|word|];
  }

  lemma OneWord(s: string, a: string, b: string)
    requires a in MARKER_WORDS && b in MARKER_WORDS && WordAndColon(s, a) && WordAndColon(s, b)
    ensures a == b
  {
    WordIsLetters(s, a);
    WordIsLetters(s, b);
    AfterWord(s, a);
    AfterWord(s, b);
    assert |a| == |b|;
  }

  lemma GapIsRead(s: string, word: string, gap: nat)
    requires |word| + gap < |s| && s[..|word|] == word && s[|word| + gap] == ':'
    requires forall i :: |word| <= i < |word| + gap ==> IsBlank(s[i])
    ensures WordAndColon(s, word) && Blanks(s[|word|..]) == gap
  {
    var tail := s[|word|..];
    assert forall i :: 0 <= i < |tail| ==> tail[i] == s[|word| + i];
    BlanksAre(tail, gap);
  }

  lemma WordIsRead(s: string, word: string)
    requires word in MARKER_WORDS && WordAndColon(s, word)
    ensures WordBeforeColon(s, MARKER_WORDS) == Some(word)
  {
    WordIsFound(s, MARKER_WORDS, word);
    OneWord(s, word, WordBeforeColon(s, MARKER_WORDS).value);
  }

  predicate MarkerSpans(s: string, kept: nat, length: nat) {
    Marker(s).Some? && Marker(s).value.0 == kept && Marker(s).value.1 == length
  }

  lemma MarkerIsRead(s: string, indent: nat, word: string, gap: nat, end: string)
    requires indent <= |s| && end == s[indent..] && Blanks(s) == indent
    requires WordBeforeColon(end, MARKER_WORDS) == Some(word) && |word| <= |end| && Blanks(end[|word|..]) == gap
    ensures MarkerSpans(s, indent + |word|, indent + |word| + gap + 1)
  {
  }

  lemma IndentEnds(s: string, indent: nat, word: string, gap: nat, end: string)
    requires MarkerShape(s, indent, word, gap) && end == s[indent..]
    ensures Blanks(s) == indent && |word| + gap < |end| && end[..|word|] == word && end[|word| + gap] == ':'
    ensures forall i :: |word| <= i < |word| + gap ==> IsBlank(end[i])
  {
    assert forall i :: 0 <= i < |end| ==> end[i] == s[indent + i];
    WordIsLetters(end, word);
    BlanksAre(s, indent);
  }

  /** Whatever has the shape of a marker is read as one, up to its colon. */
  lemma ShapeIsMarker(s: string, indent: nat, word: string, gap: nat)
    requires MarkerShape(s, indent, word, gap)
    ensures MarkerSpans(s, indent + |word|, indent + |word| + gap + 1)
  {
    var end := s[indent..];
    IndentEnds(s, indent, word, gap, end);
    GapIsRead(end, word, gap);
    WordIsRead(end, word);
    MarkerIsRead(s, indent, word, gap, end);
  }

  lemma MarkerParts(s: string) returns (word: string)
    requires Marker(s).Some?
    ensures word in MARKER_WORDS && WordAndColon(s[Blanks(s)..], word)
    ensures Marker(s).value.0 == Blanks(s) + |word|
    ensures Marker(s).value.1 == Blanks(s) + |word| + Blanks(s[Blanks(s)..][|word|..]) + 1
  {
    word := WordBeforeColon(s[Blanks(s)..], MARKER_WORDS).value;
  }

  lemma Assemble(s: string, indent: nat, word: string, end: string, gap: nat)
    requires indent <= |s| && end == s[indent..] && (forall i :: 0 <= i < indent ==> IsBlank(s[i]))
    requires word in MARKER_WORDS && |word| <= |end| && end[..|word|] == word
    requires indent + |word| + gap < |s| && s[indent + |word| + gap] == ':'
    requires forall i :: indent + |word| <= i < indent + |word| + gap ==> IsBlank(s[i])
    ensures MarkerShape(s, indent, word, gap)
  {
    assert s[indent..indent + |word|] == end[..|word|];
  }

  /** And nothing else is read as a marker. */
  lemma MarkerIsShape(s: string) returns (indent: nat, word: string, gap: nat)
    requires Marker(s).Some?
    ensures MarkerShape(s, indent, word, gap)
  {
    word := MarkerParts(s);
    indent := Blanks(s);
    gap := Blanks(s[indent..][|word|..]);
    DroppedIsBlank(s, indent, word);
    Assemble(s, indent, word, s[indent..], gap);
  }

  // ---- no marker is left, in terms of the text -----------------------------------------

  lemma FreeTail(t: string, lineStart: bool)
    requires MarkerFree(t, lineStart) && t != ""
    ensures MarkerHere(t, lineStart).None? && MarkerFree(t[1..], t[0] == '\n')
  {
  }

  lemma {:induction false} FreeAt(t: string, lineStart: bool, i: nat, here: string, atStart: bool)
    requires MarkerFree(t, lineStart) && i < |t| && here == t[i..]
    requires atStart == if i == 0 then lineStart else t[i - 1] == '\n'
    ensures MarkerHere(here, atStart).None?
    decreases i
  {
    FreeTail(t, lineStart);
    if i == 0 {
      assert t[0..] == t;
    } else {
      assert t[1..][i - 1..] == t[i..];
      assert i > 1 ==> t[1..][i - 2] == t[i - 1];
      FreeAt(t[1..], t[0] == '\n', i - 1, here, atStart);
    }
  }

  lemma ReadHere(s: string)
    requires Marker(s).Some?
    ensures MarkerHere(s, true) == Marker(s)
  {
  }

  lemma ReadBehindNewline(s: string, lineStart: bool)
    requires StartsWith(s, ESCAPED_NEWLINE) && Marker(s[2..]).Some?
    ensures MarkerHere(s, lineStart).Some?
  {
  }

  /** In an escaped text nothing has the shape of a marker at the start of a line, or behind an
      escaped newline. */
  lemma EscapedShowsNoMarker(s: string, i: nat, indent: nat, word: string, gap: nat)
    requires i < |Escape(s)|
    requires i == 0 || Escape(s)[i - 1] == '\n' || (i >= 2 && Escape(s)[i - 2] == '\\' && Escape(s)[i - 1] == 'n')
    ensures !MarkerShape(Escape(s)[i..], indent, word, gap)
  {
    EscapedHasNoMarker(s);
    NoShapeInFree(Escape(s), i, indent, word, gap);
  }

  lemma NoMarkerInFree(t: string, i: nat, here: string)
    requires MarkerFree(t, true) && i < |t| && here == t[i..]
    requires i == 0 || t[i - 1] == '\n' || (i >= 2 && t[i - 2] == '\\' && t[i - 1] == 'n')
    ensures Marker(here).None?
  {
    if i == 0 || t[i - 1] == '\n' {
      FreeAt(t, true, i, here, true);
      if Marker(here).Some? {
        ReadHere(here);
      }
    } else {
      NoMarkerBehindNewline(t, i, t[i - 2..], here);
    }
  }

  lemma NoMarkerBehindNewline(t: string, i: nat, before: string, here: string)
    requires MarkerFree(t, true) && 2 <= i < |t| && before == t[i - 2..] && here == t[i..]
    requires t[i - 2] == '\\' && t[i - 1] == 'n'
    ensures Marker(here).None?
  {
    var atStart := if i == 2 then true else t[i - 3] == '\n';
    FreeAt(t, true, i - 2, before, atStart);
    assert before[2..] == here;
    EscapedNewlineMeans(before);
    if Marker(here).Some? {
      ReadBehindNewline(before, atStart);
    }
  }

  lemma NoShapeInFree(t: string, i: nat, indent: nat, word: string, gap: nat)
    requires MarkerFree(t, true) && i < |t|
    requires i == 0 || t[i - 1] == '\n' || (i >= 2 && t[i - 2] == '\\' && t[i - 1] == 'n')
    ensures !MarkerShape(t[i..], indent, word, gap)
  {
    NoMarkerInFree(t, i, t[i..]);
    if MarkerShape(t[i..], indent, word, gap) {
      ShapeIsMarker(t[i..], indent, word, gap);
    }
  }

  // ---- what replaces what ------------------------------------------------------------------

  /** A marker at the start of a line keeps its indent and its word; the blanks before its colon go,
      and a zero-width space comes instead. */
  lemma MarkerIsReplaced(s: string, indent: nat, word: string, gap: nat, kept: nat, length: nat)
    requires MarkerShape(s, indent, word, gap) && kept == indent + |word| && length == kept + gap + 1
    ensures kept <= length <= |s|
    ensures WithoutMarkers(s, true) == s[..kept] + ['\U{200B}', ':'] + WithoutMarkers(s[length..], false)
  {
    ShapeIsMarker(s, indent, word, gap);
    SpanIsReplaced(s, kept, length);
  }

  lemma SpanIsReplaced(s: string, kept: nat, length: nat)
    requires MarkerSpans(s, kept, length)
    ensures kept <= length <= |s|
    ensures WithoutMarkers(s, true) == s[..kept] + ['\U{200B}', ':'] + WithoutMarkers(s[length..], false)
  {
    ReadHere(s);
  }

  /** Three backticks get a zero-width space behind the first. */
  lemma FenceIsBroken(rest: string)
    ensures WithoutFences("```" + rest) == ['`', '\U{200B}', '`', '`'] + WithoutFences(rest)
  {
    assert ("```" + rest)[..3] == "```" && ("```" + rest)[3..] == rest;
  }

  predicate AllBlank(s: string) {
    forall i :: 0 <= i < |s| ==> s[i] == ' ' || s[i] == '\t'
  }

  // ---- what is left as it was -----------------------------------------------------------------

  /** The text without zero-width spaces and blanks. */
  function Visible(s: string): string {
    if s == "" then ""
    else (if s[0] == '\U{200B}' || s[0] == ' ' || s[0] == '\t' then "" else [s[0]]) + Visible(s[1..])
  }

  lemma {:induction false} VisibleConcat(a: string, b: string)
    ensures Visible(a + b) == Visible(a) + Visible(b)
    decreases |a|
  {
    if a == "" {
      assert a + b == b;
    } else {
      assert (a + b)[1..] == a[1..] + b;
      VisibleConcat(a[1..], b);
    }
  }

  lemma {:induction false} BlankIsInvisible(s: string)
    requires AllBlank(s)
    ensures Visible(s) == ""
  {
    if s != "" {
      BlankIsInvisible(s[1..]);
    }
  }

  lemma {:induction false} FencesKeepVisible(s: string)
    ensures Visible(WithoutFences(s)) == Visible(s)
    decreases |s|
  {
    if s != "" {
      if StartsWith(s, "```") {
        FencesKeepVisible(s[3..]);
        FenceMeans(s);
        var rest := s[3..];
        assert s == ['`'] + (['`'] + (['`'] + rest));
        VisibleConcat(BROKEN_FENCE, WithoutFences(rest));
        VisibleConcat("```", rest);
        assert s == "```" + rest;
        assert Visible(BROKEN_FENCE) == "```" by {
          assert BROKEN_FENCE[1..] == ['\U{200B}', '`', '`'] && BROKEN_FENCE[1..][1..] == ['`', '`'];
          assert BROKEN_FENCE[1..][1..][1..] == ['`'];
        }
        assert Visible("```") == "```" by {
          assert "```"[1..] == "``" && "``"[1..] == "`" && "`"[1..] == "";
        }
      } else {
        FencesKeepVisible(s[1..]);
        VisibleConcat([s[0]], WithoutFences(s[1..]));
        VisibleConcat([s[0]], s[1..]);
        assert s == [s[0]] + s[1..];
      }
    }
  }

  /** What goes is blanks and the colon that the replacement writes again. */
  lemma DroppedAt(s: string, kept: nat, length: nat)
    requires MarkerSpans(s, kept, length)
    ensures kept < length <= |s| && AllBlank(s[kept..length - 1]) && s[length - 1] == ':'
  {
    var word := MarkerParts(s);
    DroppedIsBlank(s, Blanks(s), word);
    DroppedGap(s, kept, length);
  }

  lemma DroppedGap(s: string, kept: nat, length: nat)
    requires kept < length <= |s| && (forall i :: kept <= i < length - 1 ==> IsBlank(s[i]))
    ensures AllBlank(s[kept..length - 1])
  {
  }

  lemma Shifted(s: string, kept: nat, length: nat)
    requires 2 <= kept < length <= |s|
    ensures s[2..][kept - 2..length - 3] == s[kept..length - 1] && s[2..][length - 3] == s[length - 1]
  {
  }

  lemma DroppedHere(s: string, lineStart: bool, kept: nat, length: nat)
    requires MarkerHere(s, lineStart).Some?
    requires kept == MarkerHere(s, lineStart).value.0 && length == MarkerHere(s, lineStart).value.1
    ensures kept < length <= |s| && AllBlank(s[kept..length - 1]) && s[length - 1] == ':'
  {
    var ahead := WhichMarker(s, lineStart);
    if ahead == 0 {
      DroppedAt(s, kept, length);
    } else {
      DroppedAt(s[2..], kept - 2, length - 2);
      Shifted(s, kept, length);
    }
  }

  lemma WhichMarker(s: string, lineStart: bool) returns (ahead: nat)
    requires MarkerHere(s, lineStart).Some?
    ensures var (kept, length) := MarkerHere(s, lineStart).value;
            && (ahead == 0 ==> MarkerSpans(s, kept, length))
            && (ahead != 0 ==> 2 <= kept && 2 <= length && |s| >= 2 && MarkerSpans(s[2..], kept - 2, length - 2))
  {
    ahead := if lineStart && Marker(s).Some? then 0 else 2;
  }

  lemma Rejoined(s: string, kept: nat, length: nat)
    requires kept < length <= |s| && s[length - 1] == ':'
    ensures s == s[..kept] + (s[kept..length - 1] + ([':'] + s[length..]))
  {
  }

  lemma ReplacedKeepsVisible(head: string, gap: string, rest: string, after: string)
    requires AllBlank(gap) && Visible(after) == Visible(rest)
    ensures Visible(head + [ZERO_WIDTH, ':'] + after) == Visible(head + (gap + ([':'] + rest)))
  {
    VisibleBehind(gap, rest);
    VisibleBehind([ZERO_WIDTH], after);
    VisibleConcat(head, gap + ([':'] + rest));
    VisibleConcat(head, [ZERO_WIDTH] + ([':'] + after));
    Regrouped(head, after);
  }

  lemma Regrouped(head: string, after: string)
    ensures head + [ZERO_WIDTH, ':'] + after == head + ([ZERO_WIDTH] + ([':'] + after))
  {
  }

  lemma VisibleBehind(hidden: string, rest: string)
    requires AllBlank(hidden) || hidden == [ZERO_WIDTH]
    ensures Visible(hidden + ([':'] + rest)) == Visible([':'] + rest) == [':'] + Visible(rest)
  {
    VisibleConcat(hidden, [':'] + rest);
    if AllBlank(hidden) {
      BlankIsInvisible(hidden);
    } else {
      assert hidden[1..] == "";
    }
    assert ([':'] + rest)[1..] == rest;
  }

  lemma MarkerKeepsVisible(s: string, lineStart: bool, kept: nat, length: nat)
    requires s != "" && MarkerHere(s, lineStart) == Some((kept, length))
    requires length <= |s| && Visible(WithoutMarkers(s[length..], false)) == Visible(s[length..])
    ensures Visible(WithoutMarkers(s, lineStart)) == Visible(s)
  {
    DroppedHere(s, lineStart, kept, length);
    MarkerUnfolds(s, lineStart, kept, length);
    ReplacedKeepsVisible(s[..kept], s[kept..length - 1], s[length..], WithoutMarkers(s[length..], false));
    Rejoined(s, kept, length);
  }

  lemma {:induction false} MarkersKeepVisible(s: string, lineStart: bool)
    ensures Visible(WithoutMarkers(s, lineStart)) == Visible(s)
    decreases |s|
  {
    if s != "" {
      var marker := MarkerHere(s, lineStart);
      if marker.Some? {
        MarkersKeepVisible(s[marker.value.1..], false);
        MarkerKeepsVisible(s, lineStart, marker.value.0, marker.value.1);
      } else {
        MarkerCopied(s, lineStart);
        MarkersKeepVisible(s[1..], s[0] == '\n');
        VisibleConcat([s[0]], WithoutMarkers(s[1..], s[0] == '\n'));
        VisibleConcat([s[0]], s[1..]);
      }
    }
  }

  /** Apart from the delimiters, escaping neither adds nor loses anything that shows: only
      zero-width spaces come, and blanks before a marker's colon go. */
  lemma EscapeKeepsVisible(s: string)
    ensures Visible(Escape(s)) == Visible(WithoutDelimiters(s))
  {
    FencesKeepVisible(WithoutDelimiters(s));
    MarkersKeepVisible(WithoutFences(WithoutDelimiters(s)), true);
  }

  lemma {:induction false} NoDelimiterNoChange(s: string)
    requires DelimitersIn(s) == []
    ensures WithoutDelimiters(s) == s
  {
    if s != "" {
      NoDelimiterNoChange(s[1..]);
    }
  }

  lemma {:induction false} NoFenceNoChange(s: string, before: nat)
    requires LongestRun(s, before) < 3
    ensures WithoutFences(s) == s
    decreases |s|
  {
    if s != "" {
      if StartsWith(s, "```") {
        FenceRun(s, before);
        LongestRunAtLeast(s[3..], before + 3);
      } else if s[0] == TICK {
        NoFenceNoChange(s[1..], before + 1);
      } else {
        NoFenceNoChange(s[1..], 0);
      }
    }
  }

  lemma {:induction false} NoMarkerNoChange(s: string, lineStart: bool)
    requires MarkerFree(s, lineStart)
    ensures WithoutMarkers(s, lineStart) == s
    decreases |s|
  {
    if s != "" {
      NoMarkerNoChange(s[1..], s[0] == '\n');
    }
  }

  /** A text without delimiters, fences and markers is escaped to itself; so escaping twice is
      escaping once, unless a longer run of backticks has left a fence. */
  lemma EscapeLeavesAlone(s: string)
    requires DelimitersIn(s) == [] && LongestRun(s, 0) < 3 && MarkerFree(s, true)
    ensures Escape(s) == s
  {
    NoDelimiterNoChange(s);
    NoFenceNoChange(s, 0);
    NoMarkerNoChange(s, true);
  }

  lemma EscapeTwice(s: string)
    requires LongestRun(s, 0) < 4
    ensures Escape(Escape(s)) == Escape(s)
  {
    EscapedHasNoDelimiter(s);
    EscapedHasNoMarker(s);
    FenceSurvivesExactly(s);
    EscapeLeavesAlone(Escape(s));
  }
}
