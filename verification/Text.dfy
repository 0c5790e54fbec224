/** Lists of names written as text: splitting, joining and sorting. */
module Text {

  /** What Python's `\s` matches in a str. */
  predicate IsSpace(c: char) {
    var n := c as int;
    || 0x09 <= n <= 0x0D || 0x1C <= n <= 0x20 || n == 0x85 || n == 0xA0 || n == 0x1680
    || 0x2000 <= n <= 0x200A || n == 0x2028 || n == 0x2029 || n == 0x202F || n == 0x205F || n == 0x3000
  }

  predicate IsSeparator(c: char) {
    c == ',' || IsSpace(c)
  }

  /** A name that survives being written in a list: not empty, no comma, no white space. */
  predicate Clean(name: string) {
    name != "" && forall i :: 0 <= i < |name| ==> !IsSeparator(name[i])
  }

  function Field(current: string): seq<string> {
    if current == "" then [] else [current]
  }

  function FieldsFrom(s: string, current: string): seq<string> {
    if s == "" then Field(current)
    else if IsSeparator(s[0]) then Field(current) + FieldsFrom(s[1..], "")
    else FieldsFrom(s[1..], current + [s[0]])
  }

  /** The non-empty parts of a text between commas and white space. */
  function Fields(s: string): seq<string> {
    FieldsFrom(s, "")
  }

  function StripLeft(s: string): string {
    if s != "" && IsSpace(s[0]) then StripLeft(s[1..]) else s
  }

  function StripRight(s: string): string {
    if s != "" && IsSpace(s[|s| - 1]) then StripRight(s[..|s| - 1]) else s
  }

  function Strip(s: string): string {
    StripRight(StripLeft(s))
  }

  /** A list as configuration, a form or the database may hold it. */
  datatype Raw = Missing | Written(text: string) | Listed(names: seq<string>) | Unusable

  function Stripped(names: seq<string>): seq<string> {
    if names == [] then []
    else (if Strip(names[0]) != "" then [Strip(names[0])] else []) + Stripped(names[1..])
  }

  function Join(names: seq<string>, separator: string): string {
    if names == [] then ""
    else if |names| == 1 then names[0]
    else names[0] + separator + Join(names[1..], separator)
  }

  // ---- what stripping leaves -------------------------------------------------------

  predicate Blank(s: string) {
    forall i :: 0 <= i < |s| ==> IsSpace(s[i])
  }

  predicate Trimmed(s: string) {
    s != "" ==> !IsSpace(s[0]) && !IsSpace(s[|s| - 1])
  }

  lemma {:induction false} StripLeftExactly(s: string) returns (cut: string)
    ensures s == cut + StripLeft(s) && Blank(cut)
    ensures StripLeft(s) != "" ==> !IsSpace(StripLeft(s)[0])
  {
    if s != "" && IsSpace(s[0]) {
      var rest := StripLeftExactly(s[1..]);
      cut := [s[0]] + rest;
      assert s == [s[0]] + s[1..];
    } else {
      cut := "";
    }
  }

  lemma {:induction false} StripRightExactly(s: string) returns (cut: string)
    ensures s == StripRight(s) + cut && Blank(cut)
    ensures StripRight(s) != "" ==> !IsSpace(StripRight(s)[|StripRight(s)| - 1])
    decreases |s|
  {
    if s != "" && IsSpace(s[|s| - 1]) {
      var rest := StripRightExactly(s[..|s| - 1]);
      cut := rest + [s[|s| - 1]];
      assert s == s[..|s| - 1] + [s[|s| - 1]];
    } else {
      cut := "";
    }
  }

  /** Stripping takes white space off both ends and leaves none there. */
  lemma StripExactly(s: string) returns (left: string, right: string)
    ensures s == left + Strip(s) + right && Blank(left) && Blank(right) && Trimmed(Strip(s))
  {
    left := StripLeftExactly(s);
    right := StripRightExactly(StripLeft(s));
    assert s == left + (Strip(s) + right);
    if Strip(s) != "" {
      assert StripLeft(s)[0] == Strip(s)[0];
    }
  }

  lemma {:induction false} StrippedExactly(names: seq<string>, name: string)
    ensures name in Stripped(names) <==> name != "" && exists i :: 0 <= i < |names| && Strip(names[i]) == name
  {
    if names != [] {
      StrippedExactly(names[1..], name);
      if i :| 0 <= i < |names| && Strip(names[i]) == name {
        assert i > 0 ==> names[1..][i - 1] == names[i];
      }
      if i :| 0 <= i < |names[1..]| && Strip(names[1..][i]) == name {
        assert names[i + 1] == names[1..][i];
      }
    }
  }

  // ---- order -------------------------------------------------------------------

  predicate Leq(a: string, b: string) {
    a == "" || (b != "" && (a[0] < b[0] || (a[0] == b[0] && Leq(a[1..], b[1..]))))
  }

  lemma {:induction false} LeqTotal(a: string, b: string)
    ensures Leq(a, b) || Leq(b, a)
    ensures Leq(a, b) && Leq(b, a) ==> a == b
  {
    if a != "" && b != "" && a[0] == b[0] {
      LeqTotal(a[1..], b[1..]);
      assert a == [a[0]] + a[1..] && b == [b[0]] + b[1..];
    }
  }

  /** Insert into a sorted list without repeating what is there. */
  function InsertUnique(sorted: seq<string>, x: string): seq<string> {
    if sorted == [] then [x]
    else if sorted[0] == x then sorted
    else if Leq(x, sorted[0]) then [x] + sorted
    else [sorted[0]] + InsertUnique(sorted[1..], x)
  }

  /** `sorted(set(names))` */
  function SortUnique(names: seq<string>): seq<string> {
    if names == [] then [] else InsertUnique(SortUnique(names[1..]), names[0])
  }

  function SetOf(names: seq<string>): set<string> {
    set n | n in names
  }

  lemma {:induction false} LeqTransitive(a: string, b: string, c: string)
    requires Leq(a, b) && Leq(b, c)
    ensures Leq(a, c)
  {
    if a != "" && a[0] == b[0] && b[0] == c[0] {
      LeqTransitive(a[1..], b[1..], c[1..]);
    }
  }

  /** In order, and without repeats. */
  ghost predicate Ordered(names: seq<string>) {
    forall i, j :: 0 <= i < j < |names| ==> Leq(names[i], names[j]) && names[i] != names[j]
  }

  lemma {:induction false} InsertKeepsOrdered(sorted: seq<string>, x: string)
    requires Ordered(sorted)
    ensures Ordered(InsertUnique(sorted, x))
  {
    if sorted != [] && sorted[0] != x {
      var rest := sorted[1..];
      LeqTotal(sorted[0], x);
      forall i | 0 <= i < |rest|
        ensures Leq(sorted[0], rest[i]) && sorted[0] != rest[i] && rest[i] in rest
      {
        assert rest[i] == sorted[i + 1];
      }
      if Leq(x, sorted[0]) {
        forall i | 0 <= i < |rest|
          ensures Leq(x, rest[i]) && x != rest[i]
        {
          LeqTransitive(x, sorted[0], rest[i]);
          LeqTotal(x, sorted[0]);
        }
      } else {
        InsertKeepsOrdered(rest, x);
        InsertUniqueMembers(rest, x);
        var inserted := InsertUnique(rest, x);
        forall i | 0 <= i < |inserted|
          ensures Leq(sorted[0], inserted[i]) && sorted[0] != inserted[i]
        {
          assert inserted[i] in inserted;
        }
      }
    }
  }

  /** `sorted(set(names))` is in order and has no repeats; its members are those of `names`. */
  lemma {:induction false} SortUniqueOrdered(names: seq<string>)
    ensures Ordered(SortUnique(names))
  {
    if names != [] {
      SortUniqueOrdered(names[1..]);
      InsertKeepsOrdered(SortUnique(names[1..]), names[0]);
    }
  }

  lemma {:induction false} InsertUniqueMembers(sorted: seq<string>, x: string)
    ensures forall n :: n in InsertUnique(sorted, x) <==> n in sorted || n == x
  {
    if sorted != [] {
      InsertUniqueMembers(sorted[1..], x);
    }
  }

  lemma {:induction false} SortUniqueMembers(names: seq<string>)
    ensures SetOf(SortUnique(names)) == SetOf(names)
  {
    if names != [] {
      SortUniqueMembers(names[1..]);
      InsertUniqueMembers(SortUnique(names[1..]), names[0]);
      forall n
        ensures n in SortUnique(names) <==> n in names
      {
        assert n in SortUnique(names[1..]) <==> n in SetOf(SortUnique(names[1..]));
        assert n in names[1..] <==> n in SetOf(names[1..]);
      }
    }
  }

  // ---- splitting undoes joining ----------------------------------------------------

  lemma {:induction false} FieldsFromClean(s: string, current: string)
    requires current == "" || Clean(current)
    ensures forall i :: 0 <= i < |FieldsFrom(s, current)| ==> Clean(FieldsFrom(s, current)[i])
    decreases |s|
  {
    if s != "" {
      if IsSeparator(s[0]) {
        FieldsFromClean(s[1..], "");
      } else {
        FieldsFromClean(s[1..], current + [s[0]]);
      }
    }
  }

  lemma {:induction false} FieldsFromWord(word: string, rest: string, current: string)
    requires forall i :: 0 <= i < |word| ==> !IsSeparator(word[i])
    ensures FieldsFrom(word + rest, current) == FieldsFrom(rest, current + word)
    decreases |word|
  {
    if word == "" {
      assert word + rest == rest && current + word == current;
    } else {
      assert (word + rest)[1..] == word[1..] + rest;
      FieldsFromWord(word[1..], rest, current + [word[0]]);
      assert current + [word[0]] + word[1..] == current + word;
    }
  }

  /** A separator ends a field, and an empty stretch is none. */
  lemma FieldsSplit(word: string, separator: char, rest: string)
    requires (forall i :: 0 <= i < |word| ==> !IsSeparator(word[i])) && IsSeparator(separator)
    ensures Fields(word) == if word == "" then [] else [word]
    ensures Fields(word + [separator] + rest) == (if word == "" then [] else [word]) + Fields(rest)
  {
    FieldsFromWord(word, "", "");
    FieldsFromWord(word, [separator] + rest, "");
    assert word + "" == word && "" + word == word;
    assert word + [separator] + rest == word + ([separator] + rest);
    assert ([separator] + rest)[1..] == rest;
  }

  /** Splitting what was joined gives back the names, as long as each can be written in a list. */
  lemma {:induction false} FieldsOfJoin(names: seq<string>)
    requires forall i :: 0 <= i < |names| ==> Clean(names[i])
    ensures Fields(Join(names, ",")) == names
  {
    if names != [] {
      var word, rest := names[0], names[1..];
      if rest == [] {
        FieldsFromWord(word, "", "");
        assert word + "" == word && "" + word == word;
      } else {
        FieldsOfJoin(rest);
        FieldsFromWord(word, "," + Join(rest, ","), "");
        assert "" + word == word;
        assert word + "," + Join(rest, ",") == word + ("," + Join(rest, ","));
        assert ("," + Join(rest, ","))[1..] == Join(rest, ",");
      }
    }
  }
}
