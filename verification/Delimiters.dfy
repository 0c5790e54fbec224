/** The delimiters of untrusted text and everything that reads as one (agent/prompt_injection.py,
    `_DELIMITER`), and the substitution that removes them. Strings are sequences of code points. */
module Delimiters {
  import opened Wrappers
  import opened Text

  const ZERO_WIDTH: char := '\U{200B}'
  const LONG_S: char := '\U{017F}'

  // ---- what a delimiter is --------------------------------------------------------

  /** The same letter without regard to case; `upper` is an upper-case ASCII letter. The long s
      folds to S. */
  predicate SameLetter(c: char, upper: char) {
    c == upper || (c as int == upper as int + 32) || (upper == 'S' && c == LONG_S)
  }

  predicate IsJoiner(c: char) {
    IsSpace(c) || c == '_' || c == '-'
  }

  /** Where a reader of the delimiter pattern is: that many angle brackets in, in the gap before
      DATA, in DATA, in the gap after it, in the kind, that many closing brackets in, or done. */
  datatype Place =
    | Opening(seen: nat) | BeforeData | InData(rest: string) | AfterData(some: bool)
    | InKind(kind: string, rest: string) | Closing(kind: string, seen: nat) | Done(kind: string)

  const BEGIN := Opening(0)

  function Advance(p: Place, c: char): Option<Place> {
    match p
    case Opening(n) => if c != '<' then None else if n >= 2 then Some(BeforeData) else Some(Opening(n + 1))
    case BeforeData => if IsSpace(c) then Some(p) else if SameLetter(c, 'D') then Some(InData("ATA")) else None
    case InData(rest) =>
      if rest == "" || !SameLetter(c, rest[0]) then None
      else if |rest| == 1 then Some(AfterData(false)) else Some(InData(rest[1..]))
    case AfterData(some) =>
      if IsJoiner(c) then Some(AfterData(true))
      else if some && SameLetter(c, 'S') then Some(InKind("START", "TART"))
      else if some && SameLetter(c, 'E') then Some(InKind("END", "ND")) else None
    case InKind(kind, rest) =>
      if rest == "" || !SameLetter(c, rest[0]) then None
      else if |rest| == 1 then Some(Closing(kind, 0)) else Some(InKind(kind, rest[1..]))
    case Closing(kind, n) =>
      if n == 0 && IsSpace(c) then Some(p)
      else if c != '>' then None else if n >= 2 then Some(Done(kind)) else Some(Closing(kind, n + 1))
    case Done(_) => None
  }

  /** A match of the rest of the pattern at the head of `s`: its length and its kind. At every
      point of the pattern the next character decides, so there is at most one. */
  function MatchFrom(p: Place, s: string): Option<(nat, string)>
    decreases |s|
  {
    if p.Done? then Some((0, p.kind))
    else if s == "" then None
    else match Advance(p, s[0])
      case None => None
      case Some(q) =>
        match MatchFrom(q, s[1..])
        case None => None
        case Some((n, kind)) => Some((n + 1, kind))
  }

  predicate AllSpace(s: string) {
    forall i :: 0 <= i < |s| ==> IsSpace(s[i])
  }

  predicate SameWord(w: string, upper: string) {
    |w| == |upper| && forall i :: 0 <= i < |w| ==> SameLetter(w[i], upper[i])
  }

  /** The pattern, written out: `<<<`, white space, DATA in any case, a joiner of white space,
      underscores and hyphens, START or END in any case, white space, `>>>`. */
  predicate Shape(s: string, gap: string, data: string, joiner: string, kind: string, word: string, tail: string) {
    && s == "<<<" + (gap + (data + (joiner + (word + (tail + ">>>")))))
    && AllSpace(gap) && SameWord(data, "DATA")
    && joiner != "" && (forall i :: 0 <= i < |joiner| ==> IsJoiner(joiner[i]))
    && (kind == "START" || kind == "END") && SameWord(word, kind)
    && AllSpace(tail)
  }

  lemma {:induction false} ReadSpaces(p: Place, gap: string, rest: string)
    requires p.BeforeData? || (p.Closing? && p.seen == 0)
    requires AllSpace(gap)
    ensures MatchFrom(p, gap + rest).Some? == MatchFrom(p, rest).Some?
    ensures MatchFrom(p, rest).Some? ==>
              MatchFrom(p, gap + rest) == Some((|gap| + MatchFrom(p, rest).value.0, MatchFrom(p, rest).value.1))
  {
    if gap == "" {
      assert gap + rest == rest;
    } else {
      assert (gap + rest)[1..] == gap[1..] + rest;
      ReadSpaces(p, gap[1..], rest);
    }
  }

  lemma {:induction false} ReadJoiner(some: bool, joiner: string, rest: string)
    requires forall i :: 0 <= i < |joiner| ==> IsJoiner(joiner[i])
    requires MatchFrom(AfterData(true), rest).Some? && (some || joiner != "")
    ensures MatchFrom(AfterData(some), joiner + rest)
         == Some((|joiner| + MatchFrom(AfterData(true), rest).value.0, MatchFrom(AfterData(true), rest).value.1))
    decreases |joiner|
  {
    if joiner == "" {
      assert joiner + rest == rest;
    } else {
      assert (joiner + rest)[1..] == joiner[1..] + rest;
      ReadJoiner(true, joiner[1..], rest);
    }
  }

  lemma {:induction false} ReadWord(p: Place, after: Place, w: string, upper: string, rest: string)
    requires w != "" && SameWord(w, upper)
    requires (p == InData(upper) && after == AfterData(false)) || (p.InKind? && p.rest == upper && after == Closing(p.kind, 0))
    requires MatchFrom(after, rest).Some?
    ensures MatchFrom(p, w + rest) == Some((|w| + MatchFrom(after, rest).value.0, MatchFrom(after, rest).value.1))
    decreases |w|
  {
    assert (w + rest)[1..] == w[1..] + rest;
    if |w| == 1 {
      assert w[1..] + rest == rest;
    } else {
      ReadWord(Advance(p, w[0]).value, after, w[1..], upper[1..], rest);
    }
  }

  lemma ReadOne(p: Place, c: char, rest: string)
    requires !p.Done? && Advance(p, c).Some? && MatchFrom(Advance(p, c).value, rest).Some?
    ensures MatchFrom(p, [c] + rest)
         == Some((1 + MatchFrom(Advance(p, c).value, rest).value.0, MatchFrom(Advance(p, c).value, rest).value.1))
  {
    assert ([c] + rest)[1..] == rest;
  }

  lemma ReadClose(kind: string, rest: string)
    ensures MatchFrom(Closing(kind, 0), ">>>" + rest) == Some((3, kind))
  {
    ReadOne(Closing(kind, 2), '>', rest);
    ReadOne(Closing(kind, 1), '>', ['>'] + rest);
    ReadOne(Closing(kind, 0), '>', ['>'] + (['>'] + rest));
    assert ">>>" + rest == ['>'] + (['>'] + (['>'] + rest));
  }

  lemma ReadOpen(rest: string)
    requires MatchFrom(BeforeData, rest).Some?
    ensures MatchFrom(BEGIN, "<<<" + rest) == Some((3 + MatchFrom(BeforeData, rest).value.0, MatchFrom(BeforeData, rest).value.1))
  {
    ReadOne(Opening(2), '<', rest);
    ReadOne(Opening(1), '<', ['<'] + rest);
    ReadOne(BEGIN, '<', ['<'] + (['<'] + rest));
    assert "<<<" + rest == ['<'] + (['<'] + (['<'] + rest));
  }

  lemma ReadData(data: string, rest: string)
    requires SameWord(data, "DATA") && MatchFrom(AfterData(false), rest).Some?
    ensures MatchFrom(BeforeData, data + rest)
         == Some((4 + MatchFrom(AfterData(false), rest).value.0, MatchFrom(AfterData(false), rest).value.1))
  {
    assert !IsSpace(data[0]);
    assert (data + rest)[1..] == data[1..] + rest;
    ReadWord(InData("ATA"), AfterData(false), data[1..], "ATA", rest);
  }

  lemma ReadKind(kind: string, word: string, rest: string)
    requires (kind == "START" || kind == "END") && SameWord(word, kind) && MatchFrom(Closing(kind, 0), rest).Some?
    ensures MatchFrom(AfterData(true), word + rest)
         == Some((|word| + MatchFrom(Closing(kind, 0), rest).value.0, MatchFrom(Closing(kind, 0), rest).value.1))
  {
    assert !IsJoiner(word[0]);
    assert (word + rest)[1..] == word[1..] + rest;
    ReadWord(InKind(kind, kind[1..]), Closing(kind, 0), word[1..], kind[1..], rest);
  }

  lemma Regroup(a: string, b: string, c: string)
    ensures (a + b) + c == a + (b + c)
  {
  }

  lemma TailMatches(kind: string, word: string, tail: string, rest: string)
    requires (kind == "START" || kind == "END") && SameWord(word, kind) && AllSpace(tail)
    ensures MatchFrom(AfterData(true), (word + (tail + ">>>")) + rest) == Some((|word| + |tail| + 3, kind))
  {
    ReadClose(kind, rest);
    ReadSpaces(Closing(kind, 0), tail, ">>>" + rest);
    ReadKind(kind, word, tail + (">>>" + rest));
    Regroup(tail, ">>>", rest);
    Regroup(word, tail + ">>>", rest);
  }

  /** Whatever has the shape of a delimiter is read as one, whole, whatever follows it. */
  lemma ShapeMatches(s: string, gap: string, data: string, joiner: string, kind: string, word: string, tail: string, rest: string)
    requires Shape(s, gap, data, joiner, kind, word, tail)
    ensures MatchFrom(BEGIN, s + rest) == Some((|s|, kind))
  {
    var end := word + (tail + ">>>");
    TailMatches(kind, word, tail, rest);
    ReadJoiner(false, joiner, end + rest);
    Regroup(joiner, end, rest);
    ReadData(data, (joiner + end) + rest);
    Regroup(data, joiner + end, rest);
    ReadSpaces(BeforeData, gap, (data + (joiner + end)) + rest);
    Regroup(gap, data + (joiner + end), rest);
    ReadOpen((gap + (data + (joiner + end))) + rest);
    Regroup("<<<", gap + (data + (joiner + end)), rest);
  }

  // ---- and nothing else is ---------------------------------------------------------

  /** `m` characters of `s` are read from `p` as the kind `kind`. */
  predicate Reads(p: Place, s: string, m: nat, kind: string) {
    MatchFrom(p, s) == Some((m, kind)) && m <= |s|
  }

  lemma ReadFirst(p: Place, s: string, m: nat, kind: string) returns (q: Place)
    requires !p.Done? && Reads(p, s, m, kind)
    ensures s != "" && m > 0 && Advance(p, s[0]) == Some(q) && Reads(q, s[1..], m - 1, kind)
    ensures s[..m] == [s[0]] + s[1..][..m - 1]
  {
    q := Advance(p, s[0]).value;
    var (n, k) := MatchFrom(q, s[1..]).value;
    assert m == n + 1 && k == kind;
  }

  lemma {:induction false} ClosingShape(p: Place, s: string, m: nat, kind: string) returns (tail: string)
    requires p.Closing? && p.seen <= 2 && Reads(p, s, m, kind)
    ensures kind == p.kind && AllSpace(tail) && (p.seen > 0 ==> tail == "")
    ensures s[..m] == tail + ">>>"[p.seen..]
    decreases |s|
  {
    var q := ReadFirst(p, s, m, kind);
    if q.Done? {
      tail := "";
      assert s[..m] == [s[0]];
    } else {
      var rest := ClosingShape(q, s[1..], m - 1, kind);
      tail := if IsSpace(s[0]) && p.seen == 0 then [s[0]] + rest else "";
    }
  }

  lemma {:induction false} KindShape(p: Place, s: string, m: nat, kind: string) returns (word: string, tail: string)
    requires p.InKind? && p.rest != "" && Reads(p, s, m, kind)
    ensures kind == p.kind && SameWord(word, p.rest) && AllSpace(tail)
    ensures s[..m] == word + (tail + ">>>")
    decreases |s|
  {
    var q := ReadFirst(p, s, m, kind);
    if |p.rest| == 1 {
      tail := ClosingShape(q, s[1..], m - 1, kind);
      word := [s[0]];
    } else {
      var more, end := KindShape(q, s[1..], m - 1, kind);
      word, tail := [s[0]] + more, end;
      assert [s[0]] + (more + (tail + ">>>")) == word + (tail + ">>>");
    }
  }

  lemma {:induction false} JoinerShape(some: bool, s: string, m: nat, kind: string)
    returns (joiner: string, word: string, tail: string)
    requires Reads(AfterData(some), s, m, kind)
    ensures kind == "START" || kind == "END"
    ensures SameWord(word, kind) && AllSpace(tail) && (some || joiner != "")
    ensures forall i :: 0 <= i < |joiner| ==> IsJoiner(joiner[i])
    ensures s[..m] == joiner + (word + (tail + ">>>"))
    decreases |s|
  {
    var q := ReadFirst(AfterData(some), s, m, kind);
    if IsJoiner(s[0]) {
      var more;
      more, word, tail := JoinerShape(true, s[1..], m - 1, kind);
      joiner := [s[0]] + more;
      assert [s[0]] + (more + (word + (tail + ">>>"))) == joiner + (word + (tail + ">>>"));
    } else {
      var more, end := KindShape(q, s[1..], m - 1, kind);
      joiner, word, tail := "", [s[0]] + more, end;
      assert [s[0]] + (more + (tail + ">>>")) == joiner + (word + (tail + ">>>"));
    }
  }

  lemma {:induction false} DataShape(p: Place, s: string, m: nat, kind: string)
    returns (data: string, joiner: string, word: string, tail: string)
    requires p.InData? && p.rest != "" && Reads(p, s, m, kind)
    ensures kind == "START" || kind == "END"
    ensures SameWord(data, p.rest) && SameWord(word, kind) && AllSpace(tail) && joiner != ""
    ensures forall i :: 0 <= i < |joiner| ==> IsJoiner(joiner[i])
    ensures s[..m] == data + (joiner + (word + (tail + ">>>")))
    decreases |s|
  {
    var q := ReadFirst(p, s, m, kind);
    if |p.rest| == 1 {
      joiner, word, tail := JoinerShape(false, s[1..], m - 1, kind);
      data := [s[0]];
    } else {
      var more;
      more, joiner, word, tail := DataShape(q, s[1..], m - 1, kind);
      data := [s[0]] + more;
      assert [s[0]] + (more + (joiner + (word + (tail + ">>>")))) == data + (joiner + (word + (tail + ">>>")));
    }
  }

  lemma {:induction false} GapShape(s: string, m: nat, kind: string)
    returns (gap: string, data: string, joiner: string, word: string, tail: string)
    requires Reads(BeforeData, s, m, kind)
    ensures Shape("<<<" + s[..m], gap, data, joiner, kind, word, tail)
    decreases |s|
  {
    var q := ReadFirst(BeforeData, s, m, kind);
    if IsSpace(s[0]) {
      var more;
      more, data, joiner, word, tail := GapShape(s[1..], m - 1, kind);
      gap := [s[0]] + more;
      var end := data + (joiner + (word + (tail + ">>>")));
      assert s[1..][..m - 1] == more + end by {
        assert ("<<<" + s[1..][..m - 1])[3..] == s[1..][..m - 1];
        assert ("<<<" + (more + end))[3..] == more + end;
      }
      assert [s[0]] + (more + end) == gap + end;
    } else {
      var more;
      more, joiner, word, tail := DataShape(q, s[1..], m - 1, kind);
      gap, data := "", [s[0]] + more;
      var end := joiner + (word + (tail + ">>>"));
      assert [s[0]] + (more + end) == data + end;
      assert gap + (data + end) == data + end;
    }
  }

  /** Whatever is read as a delimiter has the shape of one, so with `ShapeMatches` exactly the
      pattern is removed. */
  lemma MatchIsShape(s: string, m: nat, kind: string)
    returns (gap: string, data: string, joiner: string, word: string, tail: string)
    requires Reads(BEGIN, s, m, kind)
    ensures Shape(s[..m], gap, data, joiner, kind, word, tail)
  {
    var p1 := ReadFirst(BEGIN, s, m, kind);
    var p2 := ReadFirst(p1, s[1..], m - 1, kind);
    var p3 := ReadFirst(p2, s[1..][1..], m - 2, kind);
    var rest := s[1..][1..][1..];
    gap, data, joiner, word, tail := GapShape(rest, m - 3, kind);
    assert s[..m] == "<<<" + rest[..m - 3];
  }

  // ---- the delimiters of a text ------------------------------------------------------

  /** The kinds of all the delimiters in a text, overlapping or not, in order. */
  function DelimitersIn(s: string): seq<string> {
    if s == "" then []
    else (match MatchFrom(BEGIN, s) case Some((_, kind)) => [kind] case None => []) + DelimitersIn(s[1..])
  }

  /** Characters that no delimiter contains. */
  predicate Barrier(c: char) {
    c == '[' || c == '`' || c == ZERO_WIDTH || c == ':'
  }

  predicate Letters(w: string) {
    forall i :: 0 <= i < |w| ==> 'A' <= w[i] <= 'Z'
  }

  predicate Proper(p: Place) {
    p.InData? || p.InKind? ==> Letters(p.rest)
  }

  lemma AdvanceIsProper(p: Place, c: char)
    requires Proper(p) && Advance(p, c).Some?
    ensures Proper(Advance(p, c).value) && !Barrier(c)
  {
    if (p.InData? || p.InKind?) && |p.rest| > 1 {
      assert forall i :: 0 <= i < |p.rest[1..]| ==> p.rest[1..][i] == p.rest[i + 1];
    }
  }

  lemma {:induction false} MatchedHasNoBarrier(p: Place, s: string)
    requires MatchFrom(p, s).Some? && Proper(p)
    ensures MatchFrom(p, s).value.0 <= |s|
    ensures forall i :: 0 <= i < MatchFrom(p, s).value.0 ==> !Barrier(s[i])
    decreases |s|
  {
    if !p.Done? {
      AdvanceIsProper(p, s[0]);
      MatchedHasNoBarrier(Advance(p, s[0]).value, s[1..]);
    }
  }

  /** A match depends only on the text it covers. */
  lemma {:induction false} MatchIsLocal(p: Place, s: string, t: string)
    requires MatchFrom(p, s).Some?
    requires MatchFrom(p, s).value.0 <= |s| && MatchFrom(p, s).value.0 <= |t|
    requires s[..MatchFrom(p, s).value.0] == t[..MatchFrom(p, s).value.0]
    ensures MatchFrom(p, t) == MatchFrom(p, s)
    decreases |s|
  {
    if !p.Done? {
      var n := MatchFrom(p, s).value.0;
      assert s[..n][0] == t[..n][0];
      assert s[1..][..n - 1] == s[..n][1..] == t[..n][1..] == t[1..][..n - 1];
      MatchIsLocal(Advance(p, s[0]).value, s[1..], t[1..]);
    }
  }

  lemma NoBracketNoMatch(s: string)
    requires s == "" || s[0] != '<'
    ensures MatchFrom(BEGIN, s).None?
  {
  }

  lemma {:induction false} DelimitersAfterPlain(plain: string, rest: string)
    requires '<' !in plain
    ensures DelimitersIn(plain + rest) == DelimitersIn(rest)
  {
    if plain == "" {
      assert plain + rest == rest;
    } else {
      assert (plain + rest)[1..] == plain[1..] + rest;
      NoBracketNoMatch(plain + rest);
      DelimitersAfterPlain(plain[1..], rest);
    }
  }

  predicate ClearTo(stop: char -> bool, t: string, n: nat) {
    n <= |t| && forall i :: 0 <= i < n ==> !stop(t[i])
  }

  /** A text rewritten so that any stretch of its beginning without a stop is copied. */
  ghost predicate CopiedUpTo(stop: char -> bool, s: string, t: string) {
    forall n: nat :: ClearTo(stop, t, n) ==> n <= |s| && t[..n] == s[..n]
  }

  lemma CopiesMatch(s: string, t: string)
    requires CopiedUpTo(Barrier, s, t) && MatchFrom(BEGIN, t).Some?
    ensures MatchFrom(BEGIN, s) == MatchFrom(BEGIN, t)
  {
    MatchedHasNoBarrier(BEGIN, t);
    assert ClearTo(Barrier, t, MatchFrom(BEGIN, t).value.0);
    MatchIsLocal(BEGIN, t, s);
  }

  lemma CopyOne(stop: char -> bool, c: char, s: string, t: string)
    requires CopiedUpTo(stop, s, t)
    ensures CopiedUpTo(stop, [c] + s, [c] + t)
  {
    forall n: nat | ClearTo(stop, [c] + t, n)
      ensures n <= |[c] + s| && ([c] + t)[..n] == ([c] + s)[..n]
    {
      if n > 0 {
        assert forall i :: 0 <= i < n - 1 ==> t[i] == ([c] + t)[i + 1];
        assert ClearTo(stop, t, n - 1);
        assert t[..n - 1] == s[..n - 1];
        assert ([c] + t)[..n] == [c] + t[..n - 1];
        assert ([c] + s)[..n] == [c] + s[..n - 1];
      }
    }
  }

  /** A replaced stretch: some of it copied, and then a stop. */
  lemma CopyToStop(stop: char -> bool, s: string, kept: nat, t: string)
    requires kept <= |s| && kept < |t| && t[..kept] == s[..kept] && stop(t[kept])
    ensures CopiedUpTo(stop, s, t)
  {
    forall n: nat | ClearTo(stop, t, n)
      ensures n <= |s| && t[..n] == s[..n]
    {
      assert n <= kept;
      assert t[..n] == t[..kept][..n];
      assert s[..n] == s[..kept][..n];
    }
  }

  // ---- neutralizing delimiters ----------------------------------------------------------

  function Replacement(kind: string): string {
    "[DATA " + kind + "]"
  }

  /** The first substitution of `escape_delimiters`, left to right. */
  function WithoutDelimiters(s: string): string
    decreases |s|
  {
    if s == "" then ""
    else match MatchFrom(BEGIN, s)
      case Some((n, kind)) =>
        if 0 < n <= |s| then Replacement(kind) + WithoutDelimiters(s[n..]) else ""
      case None => [s[0]] + WithoutDelimiters(s[1..])
  }

  /** A delimiter of either kind becomes a label of its kind, and the rest of the text is gone
      through in the same way. */
  lemma DelimiterIsReplaced(s: string, gap: string, data: string, joiner: string, kind: string, word: string, tail: string,
                            rest: string)
    requires Shape(s, gap, data, joiner, kind, word, tail)
    ensures WithoutDelimiters(s + rest) == (if kind == "START" then "[DATA START]" else "[DATA END]") + WithoutDelimiters(rest)
  {
    ShapeMatches(s, gap, data, joiner, kind, word, tail, rest);
    assert (s + rest)[|s|..] == rest;
  }

  /** Nothing else is changed. */
  lemma {:induction false} PlainIsKept(s: string, rest: string)
    requires forall i :: 0 <= i < |s| ==> MatchFrom(BEGIN, (s + rest)[i..]).None?
    ensures WithoutDelimiters(s + rest) == s + WithoutDelimiters(rest)
    decreases |s|
  {
    if s == "" {
      assert s + rest == rest;
    } else {
      assert (s + rest)[0..] == s + rest;
      assert (s + rest)[1..] == s[1..] + rest;
      forall i | 0 <= i < |s[1..]|
        ensures MatchFrom(BEGIN, (s[1..] + rest)[i..]).None?
      {
        assert (s + rest)[i + 1..] == (s[1..] + rest)[i..];
      }
      PlainIsKept(s[1..], rest);
      assert [s[0]] + (s[1..] + WithoutDelimiters(rest)) == s + WithoutDelimiters(rest);
    }
  }

  lemma {:induction false} KindOfMatch(p: Place, s: string)
    requires MatchFrom(p, s).Some?
    requires p.InKind? || p.Closing? || p.Done? ==> p.kind == "START" || p.kind == "END"
    ensures MatchFrom(p, s).value.1 == "START" || MatchFrom(p, s).value.1 == "END"
    ensures MatchFrom(p, s).value.0 > 0 || p.Done?
    decreases |s|
  {
    if !p.Done? {
      KindOfMatch(Advance(p, s[0]).value, s[1..]);
    }
  }

  lemma {:induction false} WithoutDelimitersCopies(s: string)
    ensures CopiedUpTo(Barrier, s, WithoutDelimiters(s))
    decreases |s|
  {
    if s != "" {
      if MatchFrom(BEGIN, s).Some? {
        MatchedHasNoBarrier(BEGIN, s);
        KindOfMatch(BEGIN, s);
        CopyToStop(Barrier, s, 0, WithoutDelimiters(s));
      } else {
        WithoutDelimitersCopies(s[1..]);
        CopyOne(Barrier, s[0], s[1..], WithoutDelimiters(s[1..]));
        assert s == [s[0]] + s[1..];
      }
    }
  }

  /** No delimiter, and nothing that reads as one, survives; none is put together from what was
      around the ones removed. */
  lemma {:induction false} NoDelimiterSurvives(s: string)
    ensures DelimitersIn(WithoutDelimiters(s)) == []
    decreases |s|
  {
    if s != "" {
      if MatchFrom(BEGIN, s).Some? {
        MatchedHasNoBarrier(BEGIN, s);
        KindOfMatch(BEGIN, s);
        var n := MatchFrom(BEGIN, s).value.0;
        NoDelimiterSurvives(s[n..]);
        DelimitersAfterPlain(Replacement(MatchFrom(BEGIN, s).value.1), WithoutDelimiters(s[n..]));
      } else {
        NoDelimiterSurvives(s[1..]);
        WithoutDelimitersCopies(s);
        var t := WithoutDelimiters(s);
        if MatchFrom(BEGIN, t).Some? {
          CopiesMatch(s, t);
        }
        assert t[1..] == WithoutDelimiters(s[1..]);
      }
    }
  }
}
