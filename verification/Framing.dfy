/** Frames around untrusted text, and an alert framed field by field within a budget
    (agent/prompt_injection.py: `cap_length`, `frame_untrusted_data`, `frame_alert_details`,
    `_within_budget`). */
module Framing {
  import opened Wrappers
  import opened Text
  import opened Delimiters
  import opened Escaping

  const DATA_START := "<<< DATA START >>>"
  const DATA_END := "<<< DATA END >>>"
  const LENGTH_SUFFIX := "\n[... truncated for length]"
  const TRUNCATED := "[... alert details truncated]"

  /** `cap_length` */
  function Capped(s: string, max: int): string {
    if |s| <= max then s
    else s[..if max - |LENGTH_SUFFIX| > 0 then max - |LENGTH_SUFFIX| else 0] + LENGTH_SUFFIX
  }

  function Body(data: string, max: int): string {
    if max > 0 then Capped(Escape(data), max) else Escape(data)
  }

  function FrameOf(body: string, title: string): string {
    DATA_START + (" " + (title + ("\n" + (body + ("\n" + DATA_END)))))
  }

  /** `frame_untrusted_data` */
  function Frame(data: string, title: string, max: int): string {
    FrameOf(Body(data, max), title)
  }

  // ---- one frame is closed -----------------------------------------------------------

  lemma {:induction false} MatchExtends(p: Place, s: string, t: string)
    requires MatchFrom(p, s).Some?
    ensures MatchFrom(p, s + t) == MatchFrom(p, s)
    decreases |s|
  {
    if !p.Done? {
      assert (s + t)[1..] == s[1..] + t;
      MatchExtends(Advance(p, s[0]).value, s[1..], t);
    }
  }

  lemma NewlineStops(p: Place, c: char, t: string)
    requires !p.Done? && Proper(p) && (c == '<' || c == '[')
    ensures MatchFrom(p, ['\n', c] + t).None?
  {
    assert (['\n', c] + t)[1..] == [c] + t;
    assert ([c] + t)[0] == c;
    if p.InData? || p.InKind? {
      assert p.rest == "" || !SameLetter('\n', p.rest[0]);
    } else if p.Opening? || (p.Closing? && p.seen > 0) {
      assert Advance(p, '\n').None?;
    }
  }

  /** A delimiter does not run over a new line into an opening bracket of either kind. */
  lemma {:induction false} NoMatchAcross(p: Place, s: string, c: char, t: string)
    requires !p.Done? && Proper(p) && MatchFrom(p, s).None? && (c == '<' || c == '[')
    ensures MatchFrom(p, s + (['\n', c] + t)).None?
    decreases |s|
  {
    var u := s + (['\n', c] + t);
    if s == "" {
      assert u == ['\n', c] + t;
      NewlineStops(p, c, t);
    } else {
      assert u[1..] == s[1..] + (['\n', c] + t);
      if Advance(p, s[0]).Some? {
        AdvanceIsProper(p, s[0]);
        NoMatchAcross(Advance(p, s[0]).value, s[1..], c, t);
      }
    }
  }

  lemma {:induction false} DelimitersAfterBody(body: string, c: char, t: string)
    requires DelimitersIn(body) == [] && (c == '<' || c == '[')
    ensures DelimitersIn(body + (['\n', c] + t)) == DelimitersIn([c] + t)
    decreases |body|
  {
    var u := body + (['\n', c] + t);
    if body == "" {
      DelimitersAfterPlain("\n", [c] + t);
      assert u == "\n" + ([c] + t);
    } else {
      NoMatchAcross(BEGIN, body, c, t);
      assert u[1..] == body[1..] + (['\n', c] + t);
      DelimitersAfterBody(body[1..], c, t);
    }
  }

  lemma PrefixMatches(s: string, n: nat)
    requires n <= |s|
    ensures MatchFrom(BEGIN, s[..n]).Some? ==> MatchFrom(BEGIN, s).Some?
  {
    if MatchFrom(BEGIN, s[..n]).Some? {
      MatchExtends(BEGIN, s[..n], s[n..]);
      assert s == s[..n] + s[n..];
    }
  }

  lemma {:induction false} DelimitersInPrefix(s: string, n: nat)
    requires DelimitersIn(s) == [] && n <= |s|
    ensures DelimitersIn(s[..n]) == []
    decreases |s|
  {
    if n > 0 {
      DelimitersInPrefix(s[1..], n - 1);
      assert s[..n][1..] == s[1..][..n - 1];
      PrefixMatches(s, n);
    }
  }

  lemma PlainHasNoDelimiter(s: string)
    requires '<' !in s
    ensures DelimitersIn(s) == []
  {
    DelimitersAfterPlain(s, "");
    assert s + "" == s;
  }

  lemma SuffixAddsNone(s: string, tail: string)
    requires DelimitersIn(s) == [] && '<' !in tail
    ensures DelimitersIn(s + (['\n', '['] + tail)) == []
  {
    DelimitersAfterBody(s, '[', tail);
    PlainHasNoDelimiter(['['] + tail);
  }

  lemma LengthSuffixIsPlain()
    ensures '<' !in LENGTH_SUFFIX
  {
  }

  lemma LengthSuffix()
    ensures |LENGTH_SUFFIX| >= 2 && LENGTH_SUFFIX == ['\n', '['] + LENGTH_SUFFIX[2..]
    ensures '<' !in LENGTH_SUFFIX[2..]
  {
    LengthSuffixIsPlain();
    PlainDropped(LENGTH_SUFFIX, 2);
  }

  lemma PlainDropped(s: string, n: nat)
    requires n <= |s| && '<' !in s
    ensures '<' !in s[n..]
  {
  }

  /** Capping a text without delimiters neither leaves nor makes one, the suffix included. */
  lemma CappedHasNoDelimiter(s: string, max: int)
    requires DelimitersIn(s) == []
    ensures DelimitersIn(Capped(s, max)) == []
  {
    if |s| > max {
      var n := if max - |LENGTH_SUFFIX| > 0 then max - |LENGTH_SUFFIX| else 0;
      LengthSuffix();
      DelimitersInPrefix(s, n);
      SuffixAddsNone(s[..n], LENGTH_SUFFIX[2..]);
    }
  }

  lemma BodyHasNoDelimiter(data: string, max: int)
    ensures DelimitersIn(Body(data, max)) == []
  {
    EscapedHasNoDelimiter(data);
    CappedHasNoDelimiter(Escape(data), max);
  }

  lemma FewBrackets(x: string)
    requires x == "" || x[0] != '<'
    ensures MatchFrom(BEGIN, ['<'] + x).None? && MatchFrom(BEGIN, ['<'] + (['<'] + x)).None?
  {
    var t := ['<'] + x;
    assert t[1..] == x && (['<'] + t)[1..] == t;
    assert MatchFrom(Opening(1), x).None? && MatchFrom(Opening(2), x).None?;
    assert MatchFrom(Opening(1), t).None?;
  }

  lemma DelimitersBehindBrackets(x: string)
    requires x == "" || x[0] != '<'
    ensures DelimitersIn(['<'] + (['<'] + x)) == DelimitersIn(x)
  {
    FewBrackets(x);
    assert (['<'] + (['<'] + x))[1..] == ['<'] + x;
    assert (['<'] + x)[1..] == x;
  }

  lemma DelimitersUnfold(s: string)
    requires s != "" && MatchFrom(BEGIN, s).Some?
    ensures DelimitersIn(s) == [MatchFrom(BEGIN, s).value.1] + DelimitersIn(s[1..])
  {
  }

  lemma DelimitersAtMatch(inner: string, kind: string, rest: string)
    requires inner != "" && '<' !in inner
    requires MatchFrom(BEGIN, ['<'] + (['<'] + (['<'] + (inner + rest)))) == Some((3 + |inner|, kind))
    ensures DelimitersIn(['<'] + (['<'] + (['<'] + (inner + rest)))) == [kind] + DelimitersIn(rest)
  {
    var t := ['<'] + (['<'] + (inner + rest));
    assert (inner + rest)[0] == inner[0];
    DelimitersAfterPlain(inner, rest);
    DelimitersBehindBrackets(inner + rest);
    DelimitersUnfold(['<'] + t);
    assert (['<'] + t)[1..] == t;
  }

  lemma RealStart()
    ensures Shape(DATA_START, " ", "DATA", " ", "START", "START", " ")
  {
    assert DATA_START == "<<<" + (" " + ("DATA" + (" " + ("START" + (" " + ">>>")))));
  }

  lemma RealEnd()
    ensures Shape(DATA_END, " ", "DATA", " ", "END", "END", " ")
  {
    assert DATA_END == "<<<" + (" " + ("DATA" + (" " + ("END" + (" " + ">>>")))));
  }

  lemma RealBrackets(s: string)
    requires s == DATA_START || s == DATA_END
    ensures |s| > 3 && s == ['<', '<', '<'] + s[3..] && '<' !in s[3..]
  {
  }

  lemma RealDelimiter(s: string, kind: string)
    requires (kind == "START" && s == DATA_START) || (kind == "END" && s == DATA_END)
    ensures Shape(s, " ", "DATA", " ", kind, kind, " ")
    ensures |s| > 3 && s == ['<', '<', '<'] + s[3..] && '<' !in s[3..]
  {
    RealStart();
    RealEnd();
    RealBrackets(s);
  }

  /** The delimiters of a text that starts with a real one. */
  lemma DelimitersAtDelimiter(s: string, kind: string, rest: string)
    requires (kind == "START" && s == DATA_START) || (kind == "END" && s == DATA_END)
    ensures DelimitersIn(s + rest) == [kind] + DelimitersIn(rest)
  {
    RealDelimiter(s, kind);
    ShapeMatches(s, " ", "DATA", " ", kind, kind, " ", rest);
    var inner := s[3..];
    assert s + rest == ['<'] + (['<'] + (['<'] + (inner + rest)));
    DelimitersAtMatch(inner, kind, rest);
  }

  /** A closed frame: a body without delimiters, under a label without brackets. */
  ghost predicate ClosedFrame(f: string) {
    exists body: string, title: string :: DelimitersIn(body) == [] && '<' !in title && f == FrameOf(body, title)
  }

  lemma AroundBody(body: string, title: string, rest: string)
    requires DelimitersIn(body) == [] && '<' !in title
    ensures DelimitersIn(FrameOf(body, title) + rest) == ["START", "END"] + DelimitersIn(rest)
  {
    var end := DATA_END + rest;
    var header := " " + (title + "\n");
    var inner := body + ("\n" + end);
    DelimitersAtDelimiter(DATA_END, "END", rest);
    assert end == ['<'] + end[1..];
    DelimitersAfterBody(body, '<', end[1..]);
    assert inner == body + (['\n', '<'] + end[1..]);
    DelimitersAfterPlain(header, inner);
    DelimitersAtDelimiter(DATA_START, "START", header + inner);
    FrameRegrouped(body, title, rest);
    assert ["START"] + (["END"] + DelimitersIn(rest)) == ["START", "END"] + DelimitersIn(rest);
  }

  lemma FrameRegrouped(body: string, title: string, rest: string)
    ensures FrameOf(body, title) + rest == DATA_START + ((" " + (title + "\n")) + (body + ("\n" + (DATA_END + rest))))
  {
  }

  /** Whatever the data, its frame starts with the opening delimiter and ends with the closing
      one, and these are the only two in it, look-alikes counted. */
  lemma FrameIsClosed(data: string, title: string, max: int)
    requires '<' !in title
    ensures ClosedFrame(Frame(data, title, max))
    ensures DelimitersIn(Frame(data, title, max)) == ["START", "END"]
    ensures |Frame(data, title, max)| >= |DATA_START|
    ensures Frame(data, title, max)[..|DATA_START|] == DATA_START
    ensures Frame(data, title, max)[|Frame(data, title, max)| - |DATA_END|..] == DATA_END
  {
    BodyHasNoDelimiter(data, max);
    AroundBody(Body(data, max), title, "");
    assert Frame(data, title, max) + "" == Frame(data, title, max);
    FrameEnds(Body(data, max), title);
  }

  lemma FrameEnds(body: string, title: string)
    ensures var f := FrameOf(body, title);
            |f| >= |DATA_START| && f[..|DATA_START|] == DATA_START && f[|f| - |DATA_END|..] == DATA_END
  {
    var before := DATA_START + (" " + (title + ("\n" + (body + "\n"))));
    assert FrameOf(body, title) == before + DATA_END;
  }

  // ---- what a frame shows --------------------------------------------------------------

  lemma LengthSuffixIs()
    ensures LENGTH_SUFFIX == "\n[... truncated for length]" && |LENGTH_SUFFIX| == 27
  {
  }

  /** A text within its cap is kept. A longer one is cut to fill the cap, the notice counted; a cap
      with no room for more than the notice leaves the notice alone. */
  lemma CappedExactly(s: string, max: int)
    ensures |s| <= max ==> Capped(s, max) == s
    ensures |s| > max && max >= 27 ==>
              |Capped(s, max)| == max && Capped(s, max) == s[..max - 27] + "\n[... truncated for length]"
    ensures |s| > max && max < 27 ==> Capped(s, max) == "\n[... truncated for length]"
  {
    LengthSuffixIs();
    if |s| > max {
      if max >= 27 {
        assert max - 27 == if max - |LENGTH_SUFFIX| > 0 then max - |LENGTH_SUFFIX| else 0;
      } else {
        assert s[..0] + LENGTH_SUFFIX == LENGTH_SUFFIX;
      }
    }
  }

  predicate Shows(shown: string, text: string, max: int) {
    if max <= 0 || |text| <= max then shown == text
    else if max >= 27 then |shown| == max && shown == text[..max - 27] + "\n[... truncated for length]"
    else shown == "\n[... truncated for length]"
  }

  /** A frame is its opening line with the label, the escaped data within the cap (a cap of 0 or
      less is none), and its closing line. */
  lemma FrameExactly(data: string, title: string, max: int) returns (shown: string)
    ensures Shows(shown, Escape(data), max)
    ensures Frame(data, title, max) == "<<< DATA START >>> " + title + "\n" + shown + "\n<<< DATA END >>>"
  {
    shown := Body(data, max);
    CappedExactly(Escape(data), max);
    FrameReads(shown, title);
  }

  lemma FrameReads(body: string, title: string)
    ensures FrameOf(body, title) == "<<< DATA START >>> " + title + "\n" + body + "\n<<< DATA END >>>"
  {
    var f := FrameOf(body, title);
    assert f == (DATA_START + " ") + title + "\n" + body + ("\n" + DATA_END);
    assert DATA_START + " " == "<<< DATA START >>> ";
    assert "\n" + DATA_END == "\n<<< DATA END >>>";
  }

  // ---- the budget ------------------------------------------------------------------------

  function Present(frames: seq<string>): seq<string> {
    if frames == [] then [] else (if frames[0] != "" then [frames[0]] else []) + Present(frames[1..])
  }

  /** The room the first `n` frames take, each with the newline that joins it to the next. */
  function Used(frames: seq<string>, n: nat): nat
    requires n <= |frames|
  {
    if n == 0 then 0 else Used(frames, n - 1) + |frames[n - 1]| + 1
  }

  /** Frame `i` can be kept: it fits behind those before it, with room for the marker unless it
      is the last. */
  predicate Fits(frames: seq<string>, i: nat, maxTotal: int)
    requires i < |frames|
  {
    Used(frames, i) + |frames[i]| + (if i == |frames| - 1 then 0 else |TRUNCATED| + 1) <= maxTotal
  }

  function FirstUnfit(frames: seq<string>, from: nat, maxTotal: int): (k: nat)
    requires from <= |frames|
    ensures from <= k <= |frames|
    decreases |frames| - from
  {
    if from < |frames| && Fits(frames, from, maxTotal) then FirstUnfit(frames, from + 1, maxTotal) else from
  }

  /** The parts that are joined: the frames before the first that does not fit, and then the
      marker, if one did not and the marker still does. */
  function Parts(frames: seq<string>, maxTotal: int): seq<string> {
    var k := FirstUnfit(frames, 0, maxTotal);
    if k < |frames| && Used(frames, k) + |TRUNCATED| <= maxTotal then frames[..k] + [TRUNCATED] else frames[..k]
  }

  function WithinBudget(frames: seq<string>, maxTotal: int): string {
    Join(Parts(Present(frames), maxTotal), "\n")
  }

  lemma {:induction false} FirstUnfitFinds(frames: seq<string>, from: nat, maxTotal: int)
    requires from <= |frames|
    ensures forall i :: from <= i < FirstUnfit(frames, from, maxTotal) ==> Fits(frames, i, maxTotal)
    ensures FirstUnfit(frames, from, maxTotal) < |frames| ==> !Fits(frames, FirstUnfit(frames, from, maxTotal), maxTotal)
    decreases |frames| - from
  {
    if from < |frames| && Fits(frames, from, maxTotal) {
      FirstUnfitFinds(frames, from + 1, maxTotal);
    }
  }

  /** `_within_budget`, the loop. */
  method JoinWithinBudget(frames: seq<string>, maxTotal: int) returns (text: string)
    ensures text == WithinBudget(frames, maxTotal)
  {
    var present := Present(frames);
    var kept: seq<string>, used := [], 0;
    var i := 0;
    FirstUnfitFinds(present, 0, maxTotal);
    while i < |present|
      invariant 0 <= i <= |present|
      invariant kept == present[..i] && used == Used(present, i)
      invariant FirstUnfit(present, 0, maxTotal) == FirstUnfit(present, i, maxTotal)
    {
      var frame := present[i];
      var reserve := if i == |present| - 1 then 0 else |TRUNCATED| + 1;
      if used + |frame| + reserve > maxTotal {
        if used + |TRUNCATED| <= maxTotal {
          kept := kept + [TRUNCATED];
        }
        break;
      }
      kept := kept + [frame];
      used := used + |frame| + 1;
      i := i + 1;
    }
    assert kept == Parts(present, maxTotal);
    text := Join(kept, "\n");
  }

  lemma {:induction false} UsedPrefix(frames: seq<string>, more: seq<string>, n: nat)
    requires n <= |frames|
    ensures Used(frames + more, n) == Used(frames, n)
  {
    if n > 0 {
      UsedPrefix(frames, more, n - 1);
    }
  }

  lemma {:induction false} JoinAppend(parts: seq<string>, part: string)
    requires parts != []
    ensures Join(parts + [part], "\n") == Join(parts, "\n") + "\n" + part
    decreases |parts|
  {
    if |parts| == 1 {
      assert (parts + [part])[1..] == [part];
    } else {
      assert (parts + [part])[1..] == parts[1..] + [part];
      JoinAppend(parts[1..], part);
      Regroup(parts[0] + "\n", Join(parts[1..], "\n"), "\n");
    }
  }

  lemma {:induction false} JoinLength(parts: seq<string>)
    ensures |Join(parts, "\n")| == if parts == [] then 0 else Used(parts, |parts|) - 1
    decreases |parts|
  {
    if |parts| > 1 {
      var before, last := parts[..|parts| - 1], parts[|parts| - 1];
      JoinLength(before);
      JoinAppend(before, last);
      UsedPrefix(before, [last], |before|);
      assert parts == before + [last];
    } else if |parts| == 1 {
      assert Used(parts, 0) == 0;
    }
  }

  /** The result never exceeds a budget that is not negative. It is whole frames, in order, from
      the first, as many as fit with room kept for the marker; the marker follows exactly if a
      frame was dropped and the marker fits, which it always does if any frame was kept. */
  lemma BudgetKept(frames: seq<string>, maxTotal: int)
    ensures var present := Present(frames);
            var k := FirstUnfit(present, 0, maxTotal);
            && k <= |present|
            && |WithinBudget(frames, maxTotal)| <= (if maxTotal > 0 then maxTotal else 0)
            && Parts(present, maxTotal)
               == present[..k] + (if k < |present| && Used(present, k) + |TRUNCATED| <= maxTotal then [TRUNCATED] else [])
            && (0 < k < |present| ==> Used(present, k) + |TRUNCATED| <= maxTotal)
            && (forall i :: 0 <= i < k ==> Fits(present, i, maxTotal))
            && (k < |present| ==> !Fits(present, k, maxTotal))
  {
    var present := Present(frames);
    var k := FirstUnfit(present, 0, maxTotal);
    FirstUnfitFinds(present, 0, maxTotal);
    var parts := Parts(present, maxTotal);
    JoinLength(parts);
    if k > 0 {
      assert Fits(present, k - 1, maxTotal);
    }
    assert present == present[..k] + present[k..];
    UsedPrefix(present[..k], present[k..], k);
    if parts != present[..k] {
      UsedPrefix(present[..k], [TRUNCATED], k);
    }
  }

  lemma {:induction false} PresentConcat(a: seq<string>, b: seq<string>)
    ensures Present(a + b) == Present(a) + Present(b)
  {
    if a == [] {
      assert a + b == b;
    } else {
      assert (a + b)[1..] == a[1..] + b;
      PresentConcat(a[1..], b);
    }
  }

  lemma PresentOne(frame: string)
    ensures Present([frame]) == if frame == "" then [] else [frame]
  {
    assert [frame][1..] == [];
  }

  /** The length of the first `n` frames joined by new lines. */
  lemma UsedIsJoined(frames: seq<string>, n: nat)
    requires n <= |frames|
    ensures Used(frames, n) == if n == 0 then 0 else |Join(frames[..n], "\n")| + 1
  {
    JoinLength(frames[..n]);
    assert frames == frames[..n] + frames[n..];
    UsedPrefix(frames[..n], frames[n..], n);
  }

  lemma TruncatedIs()
    ensures TRUNCATED == "[... alert details truncated]" && |TRUNCATED| == 29
  {
  }

  /** The first `n` frames, joined, fit in the budget, with room for a new line and the marker
      unless they are all the frames there are. */
  ghost predicate FirstFit(frames: seq<string>, n: nat, maxTotal: int)
    requires n <= |frames|
  {
    |Join(frames[..n], "\n")| + (if n == |frames| then 0 else 30) <= maxTotal
  }

  lemma FitsExactly(frames: seq<string>, i: nat, maxTotal: int)
    requires i < |frames|
    ensures Fits(frames, i, maxTotal) <==> FirstFit(frames, i + 1, maxTotal)
  {
    TruncatedIs();
    UsedIsJoined(frames, i + 1);
  }

  /** The budget in terms of the joined text alone: `kept` frames, the most of which each prefix
      fits, and then the marker, exactly if a frame was dropped and the marker fits. */
  lemma BudgetExactly(frames: seq<string>, maxTotal: int) returns (kept: nat, marker: bool)
    ensures kept <= |Present(frames)|
    ensures WithinBudget(frames, maxTotal)
         == Join(Present(frames)[..kept] + (if marker then ["[... alert details truncated]"] else []), "\n")
    ensures forall n :: 1 <= n <= kept ==> FirstFit(Present(frames), n, maxTotal)
    ensures kept < |Present(frames)| ==> !FirstFit(Present(frames), kept + 1, maxTotal)
    ensures marker <==> kept < |Present(frames)|
                        && (if kept == 0 then 29 else |Join(Present(frames)[..kept], "\n")| + 30) <= maxTotal
  {
    var present := Present(frames);
    kept := FirstUnfit(present, 0, maxTotal);
    FirstUnfitFinds(present, 0, maxTotal);
    TruncatedIs();
    UsedIsJoined(present, kept);
    marker := kept < |present| && Used(present, kept) + |TRUNCATED| <= maxTotal;
    assert !marker ==> present[..kept] + [] == present[..kept];
    forall n: nat | 1 <= n <= kept
      ensures FirstFit(present, n, maxTotal)
    {
      FitsExactly(present, n - 1, maxTotal);
    }
    if kept < |present| {
      FitsExactly(present, kept, maxTotal);
    }
  }

  // ---- an alert --------------------------------------------------------------------------------

  /** The fields of an alert that are present, each as the text that is framed: the value of a
      field as a string, the details and labels as JSON if they are non-empty dictionaries, and
      everything else as one JSON text. */
  datatype Alert = Alert(namespace: Option<string>, resourceType: Option<string>, resourceName: Option<string>,
                         summary: Option<string>, details: Option<string>, labels: Option<string>,
                         alertLabels: Option<string>, rest: Option<string>)

  /** `frame_alert_field`, for a field that is there. */
  function FieldFrame(value: Option<string>, name: string, cap: int): seq<string> {
    if value.None? then [] else [if Strip(value.value) == "" then "" else Frame(value.value, "alert " + name, cap)]
  }

  function DictFrame(value: Option<string>, title: string, cap: int): seq<string> {
    if value.None? then [] else [Frame(value.value, title, cap)]
  }

  function AlertFrames(a: Alert): seq<string> {
    FieldFrame(a.namespace, "namespace", 200)
    + FieldFrame(a.resourceType, "resource_type", 100)
    + FieldFrame(a.resourceName, "resource_name", 200)
    + FieldFrame(a.summary, "summary", 800)
    + DictFrame(a.details, "alert details", 500)
    + DictFrame(if a.labels.Some? then a.labels else a.alertLabels, "alert labels", 300)
    + DictFrame(a.rest, "other alert fields", 1000)
  }

  /** `frame_alert_details` */
  function FrameAlertDetails(a: Alert, maxTotal: int): string {
    WithinBudget(AlertFrames(a), maxTotal)
  }

  ghost predicate AllClosed(parts: seq<string>) {
    forall i :: 0 <= i < |parts| ==> ClosedFrame(parts[i])
  }

  function Pairs(n: nat): seq<string> {
    if n == 0 then [] else ["START", "END"] + Pairs(n - 1)
  }

  ghost predicate EmptyOrClosed(frames: seq<string>) {
    forall i :: 0 <= i < |frames| ==> frames[i] == "" || ClosedFrame(frames[i])
  }

  lemma {:induction false} PresentFrames(frames: seq<string>)
    requires EmptyOrClosed(frames)
    ensures AllClosed(Present(frames))
  {
    if frames != [] {
      PresentFrames(frames[1..]);
    }
  }

  lemma FieldIsFrame(value: Option<string>, name: string, cap: int)
    requires '<' !in name
    ensures EmptyOrClosed(FieldFrame(value, name, cap))
  {
    assert '<' !in "alert " + name;
    if value.Some? {
      FrameIsClosed(value.value, "alert " + name, cap);
    }
  }

  lemma DictIsFrame(value: Option<string>, title: string, cap: int)
    requires '<' !in title
    ensures EmptyOrClosed(DictFrame(value, title, cap))
  {
    if value.Some? {
      FrameIsClosed(value.value, title, cap);
    }
  }

  lemma EmptyOrClosedAppend(a: seq<string>, b: seq<string>)
    requires EmptyOrClosed(a) && EmptyOrClosed(b)
    ensures EmptyOrClosed(a + b)
  {
  }

  lemma AlertFramesAreFrames(a: Alert)
    ensures AllClosed(Present(AlertFrames(a)))
  {
    var namespace, resourceType := FieldFrame(a.namespace, "namespace", 200), FieldFrame(a.resourceType, "resource_type", 100);
    var resourceName, summary := FieldFrame(a.resourceName, "resource_name", 200), FieldFrame(a.summary, "summary", 800);
    var details := DictFrame(a.details, "alert details", 500);
    var labels := DictFrame(if a.labels.Some? then a.labels else a.alertLabels, "alert labels", 300);
    var rest := DictFrame(a.rest, "other alert fields", 1000);
    FieldIsFrame(a.namespace, "namespace", 200);
    FieldIsFrame(a.resourceType, "resource_type", 100);
    FieldIsFrame(a.resourceName, "resource_name", 200);
    FieldIsFrame(a.summary, "summary", 800);
    DictIsFrame(a.details, "alert details", 500);
    DictIsFrame(if a.labels.Some? then a.labels else a.alertLabels, "alert labels", 300);
    DictIsFrame(a.rest, "other alert fields", 1000);
    EmptyOrClosedAppend(namespace, resourceType);
    EmptyOrClosedAppend(namespace + resourceType, resourceName);
    EmptyOrClosedAppend(namespace + resourceType + resourceName, summary);
    EmptyOrClosedAppend(namespace + resourceType + resourceName + summary, details);
    EmptyOrClosedAppend(namespace + resourceType + resourceName + summary + details, labels);
    EmptyOrClosedAppend(namespace + resourceType + resourceName + summary + details + labels, rest);
    PresentFrames(AlertFrames(a));
  }

  /** The frame a field is shown in, or none: a field is left out if it is missing or, unless it is
      a dictionary, blank. */
  function Shown(value: Option<string>, dict: bool, title: string, cap: int): seq<string> {
    if value.None? || (!dict && Blank(value.value)) then [] else [Frame(value.value, title, cap)]
  }

  lemma FieldShown(value: Option<string>, name: string, title: string, cap: int)
    requires title == "alert " + name && '<' !in title
    ensures Present(FieldFrame(value, name, cap)) == Shown(value, false, title, cap)
  {
    if value.Some? {
      BlankExactly(value.value);
      FrameIsClosed(value.value, title, cap);
      PresentOne(if Strip(value.value) == "" then "" else Frame(value.value, title, cap));
    }
  }

  lemma BlankExactly(s: string)
    ensures Strip(s) == "" <==> Blank(s)
  {
    var left, right := StripExactly(s);
    if Strip(s) == "" {
      assert s == left + right;
    } else {
      assert s[|left|] == Strip(s)[0];
    }
  }

  lemma DictShown(value: Option<string>, title: string, cap: int)
    requires '<' !in title
    ensures Present(DictFrame(value, title, cap)) == Shown(value, true, title, cap)
  {
    if value.Some? {
      FrameIsClosed(value.value, title, cap);
      PresentOne(Frame(value.value, title, cap));
    }
  }

  lemma Titles()
    ensures "alert namespace" == "alert " + "namespace" && "alert resource_type" == "alert " + "resource_type"
    ensures "alert resource_name" == "alert " + "resource_name" && "alert summary" == "alert " + "summary"
    ensures '<' !in "alert namespace" && '<' !in "alert resource_type"
    ensures '<' !in "alert resource_name" && '<' !in "alert summary"
  {
  }

  lemma KindShown(namespace: Option<string>, resourceType: Option<string>)
    ensures Present(FieldFrame(namespace, "namespace", 200)) == Shown(namespace, false, "alert namespace", 200)
    ensures Present(FieldFrame(resourceType, "resource_type", 100)) == Shown(resourceType, false, "alert resource_type", 100)
  {
    Titles();
    FieldShown(namespace, "namespace", "alert namespace", 200);
    FieldShown(resourceType, "resource_type", "alert resource_type", 100);
  }

  lemma NameShown(resourceName: Option<string>, summary: Option<string>)
    ensures Present(FieldFrame(resourceName, "resource_name", 200)) == Shown(resourceName, false, "alert resource_name", 200)
    ensures Present(FieldFrame(summary, "summary", 800)) == Shown(summary, false, "alert summary", 800)
  {
    Titles();
    FieldShown(resourceName, "resource_name", "alert resource_name", 200);
    FieldShown(summary, "summary", "alert summary", 800);
  }

  lemma DictsShown(details: Option<string>, labels: Option<string>, rest: Option<string>)
    ensures Present(DictFrame(details, "alert details", 500)) == Shown(details, true, "alert details", 500)
    ensures Present(DictFrame(labels, "alert labels", 300)) == Shown(labels, true, "alert labels", 300)
    ensures Present(DictFrame(rest, "other alert fields", 1000)) == Shown(rest, true, "other alert fields", 1000)
  {
    DictShown(details, "alert details", 500);
    DictShown(labels, "alert labels", 300);
    DictShown(rest, "other alert fields", 1000);
  }

  lemma SevenPresent(a: seq<string>, b: seq<string>, c: seq<string>, d: seq<string>, e: seq<string>, f: seq<string>,
                     g: seq<string>)
    ensures Present(a + b + c + d + e + f + g)
         == Present(a) + Present(b) + Present(c) + Present(d) + Present(e) + Present(f) + Present(g)
  {
    PresentConcat(a, b);
    PresentConcat(a + b, c);
    PresentConcat(a + b + c, d);
    PresentConcat(a + b + c + d, e);
    PresentConcat(a + b + c + d + e, f);
    PresentConcat(a + b + c + d + e + f, g);
  }

  /** Every field of an alert that has a text is framed under its own label and cap, the identity
      first; the labels of one kind stand in for the other's. Nothing else is framed, and nothing
      blank. */
  lemma AlertShows(a: Alert)
    ensures Present(AlertFrames(a))
         == Shown(a.namespace, false, "alert namespace", 200)
            + Shown(a.resourceType, false, "alert resource_type", 100)
            + Shown(a.resourceName, false, "alert resource_name", 200)
            + Shown(a.summary, false, "alert summary", 800)
            + Shown(a.details, true, "alert details", 500)
            + Shown(if a.labels.Some? then a.labels else a.alertLabels, true, "alert labels", 300)
            + Shown(a.rest, true, "other alert fields", 1000)
  {
    KindShown(a.namespace, a.resourceType);
    NameShown(a.resourceName, a.summary);
    var labels := if a.labels.Some? then a.labels else a.alertLabels;
    DictsShown(a.details, labels, a.rest);
    SevenPresent(FieldFrame(a.namespace, "namespace", 200), FieldFrame(a.resourceType, "resource_type", 100),
                 FieldFrame(a.resourceName, "resource_name", 200), FieldFrame(a.summary, "summary", 800),
                 DictFrame(a.details, "alert details", 500), DictFrame(labels, "alert labels", 300),
                 DictFrame(a.rest, "other alert fields", 1000));
  }

  lemma JoinedTail(frame: string, others: seq<string>)
    requires ClosedFrame(frame)
    ensures DelimitersIn(Join([frame] + others, "\n")) == ["START", "END"] + DelimitersIn(Join(others, "\n"))
  {
    var body, title :| DelimitersIn(body) == [] && '<' !in title && frame == FrameOf(body, title);
    var parts := [frame] + others;
    assert parts[1..] == others;
    if others == [] {
      AroundBody(body, title, "");
      assert frame + "" == frame;
    } else {
      AroundBody(body, title, "\n" + Join(others, "\n"));
      DelimitersAfterPlain("\n", Join(others, "\n"));
      Regroup(frame, "\n", Join(others, "\n"));
    }
  }

  lemma {:induction false} JoinedFrames(frames: seq<string>, tail: seq<string>)
    requires AllClosed(frames) && (tail == [] || (|tail| == 1 && '<' !in tail[0]))
    ensures DelimitersIn(Join(frames + tail, "\n")) == Pairs(|frames|)
    decreases |frames|
  {
    if frames == [] {
      assert frames + tail == tail;
      if tail != [] {
        PlainHasNoDelimiter(tail[0]);
      }
    } else {
      JoinedFrames(frames[1..], tail);
      JoinedTail(frames[0], frames[1..] + tail);
      assert frames + tail == [frames[0]] + (frames[1..] + tail);
    }
  }

  lemma TruncatedIsPlain()
    ensures '<' !in TRUNCATED
  {
  }

  lemma BudgetedIsFramed(frames: seq<string>, maxTotal: int, k: nat)
    requires AllClosed(Present(frames)) && k == FirstUnfit(Present(frames), 0, maxTotal)
    ensures DelimitersIn(WithinBudget(frames, maxTotal)) == Pairs(k)
  {
    BudgetKept(frames, maxTotal);
    TruncatedIsPlain();
    var present := Present(frames);
    var tail := if k < |present| && Used(present, k) + |TRUNCATED| <= maxTotal then [TRUNCATED] else [];
    JoinedFrames(present[..k], tail);
  }

  /** Whatever an alert carries, its framed text is a row of closed frames: the delimiters in it,
      look-alikes counted, are START and END in turn, as many pairs as frames were kept, and it
      fits the budget. */
  lemma AlertIsFramed(a: Alert, maxTotal: int)
    ensures DelimitersIn(FrameAlertDetails(a, maxTotal)) == Pairs(FirstUnfit(Present(AlertFrames(a)), 0, maxTotal))
    ensures maxTotal >= 0 ==> |FrameAlertDetails(a, maxTotal)| <= maxTotal
  {
    AlertFramesAreFrames(a);
    BudgetKept(AlertFrames(a), maxTotal);
    BudgetedIsFramed(AlertFrames(a), maxTotal, FirstUnfit(Present(AlertFrames(a)), 0, maxTotal));
  }
}
