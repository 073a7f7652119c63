/**
 * The Python `str` operations the packaging script relies on, over strings of
 * Unicode code points: `replace` (with and without a count), `split` on a
 * one-character separator, `splitlines`, `lower` on ASCII letters, and the
 * code-point order that `sorted` uses on strings.
 */
module PyStr {

  // ---------------------------------------------------------------------------
  // Occurrences of a pattern
  // ---------------------------------------------------------------------------

  /** `pat` occurs in `s` starting at index `i`. */
  predicate OccursAt(s: string, pat: string, i: int) {
    0 <= i && i + |pat| <= |s| && s[i..i + |pat|] == pat
  }

  /** No occurrence of `pat` in `s` starts before index `n`. */
  predicate NoOccurrenceBefore(s: string, pat: string, n: int) {
    forall i :: 0 <= i < n ==> !OccursAt(s, pat, i)
  }

  /** An occurrence in `s[1..]` at `i` would be one in `s` at `i + 1`. */
  lemma NoOccurrenceInTailAt(s: string, pat: string, i: int)
    requires s != [] && !OccursAt(s, pat, i + 1)
    ensures !OccursAt(s[1..], pat, i)
  {
    if 0 <= i && i + |pat| <= |s| - 1 {
      var inTail, inWhole := s[1..][i..i + |pat|], s[i + 1..i + 1 + |pat|];
      forall k | 0 <= k < |pat| ensures inTail[k] == inWhole[k] {
      }
      assert inTail == inWhole;
    }
  }

  /** Dropping the first character moves every occurrence one place left. */
  lemma NoOccurrenceShift(s: string, pat: string, n: int)
    requires s != [] && NoOccurrenceBefore(s, pat, n + 1)
    ensures NoOccurrenceBefore(s[1..], pat, n)
  {
    forall i | 0 <= i < n ensures !OccursAt(s[1..], pat, i) {
      NoOccurrenceInTailAt(s, pat, i);
    }
  }

  lemma NoOccurrenceInTail(s: string, pat: string)
    requires s != [] && forall i :: !OccursAt(s, pat, i)
    ensures forall i :: !OccursAt(s[1..], pat, i)
  {
    forall i ensures !OccursAt(s[1..], pat, i) {
      NoOccurrenceInTailAt(s, pat, i);
    }
  }

  // ---------------------------------------------------------------------------
  // s.replace(pat, "") and s.replace(pat, "", 1)
  // ---------------------------------------------------------------------------

  /**
   * `s.replace(pat, "")`: one left-to-right pass that deletes every
   * non-overlapping occurrence of `pat`. Replacing the empty pattern by the
   * empty string leaves `s` as it is.
   */
  function RemoveAll(s: string, pat: string): (r: string)
    ensures |r| <= |s|
    decreases |s|
  {
    if pat == [] || |s| < |pat| then s
    else if s[..|pat|] == pat then RemoveAll(s[|pat|..], pat)
    else [s[0]] + RemoveAll(s[1..], pat)
  }

  /** `s.replace(pat, "", 1)`: deletes the leftmost occurrence of `pat`, if any. */
  function RemoveFirst(s: string, pat: string): (r: string)
    ensures r == s || |r| == |s| - |pat|
    decreases |s|
  {
    if pat == [] || |s| < |pat| then s
    else if s[..|pat|] == pat then s[|pat|..]
    else
      assert s == [s[0]] + s[1..];
      [s[0]] + RemoveFirst(s[1..], pat)
  }

  /** One step of `RemoveAll` where no occurrence starts at the front: the first character stays. */
  lemma RemoveAllSkip(s: string, pat: string)
    requires pat != [] && s != [] && !OccursAt(s, pat, 0)
    ensures RemoveAll(s, pat) == [s[0]] + RemoveAll(s[1..], pat)
  {
    assert s == [s[0]] + s[1..];
  }

  /** One step of `RemoveAll` at an occurrence: it goes, and the scan resumes after it. */
  lemma RemoveAllHit(s: string, pat: string)
    requires pat != [] && OccursAt(s, pat, 0)
    ensures RemoveAll(s, pat) == RemoveAll(s[|pat|..], pat)
  {
  }

  lemma RemoveFirstSkip(s: string, pat: string)
    requires pat != [] && s != [] && !OccursAt(s, pat, 0)
    ensures RemoveFirst(s, pat) == [s[0]] + RemoveFirst(s[1..], pat)
  {
    assert s == [s[0]] + s[1..];
  }

  lemma RemoveFirstHit(s: string, pat: string)
    requires pat != [] && OccursAt(s, pat, 0)
    ensures RemoveFirst(s, pat) == s[|pat|..]
  {
  }

  lemma ConsAppend<T>(a: seq<T>, r: seq<T>)
    requires a != []
    ensures [a[0]] + (a[1..] + r) == a + r
  {
    assert a == [a[0]] + a[1..];
  }

  /** A string in which `pat` never occurs is left unchanged by `RemoveAll`. */
  lemma {:induction false} RemoveAllAbsent(s: string, pat: string)
    requires forall i :: !OccursAt(s, pat, i)
    ensures RemoveAll(s, pat) == s
    decreases |s|
  {
    if pat != [] && s != [] {
      assert !OccursAt(s, pat, 0);
      RemoveAllSkip(s, pat);
      NoOccurrenceInTail(s, pat);
      RemoveAllAbsent(s[1..], pat);
      assert s == [s[0]] + s[1..];
    }
  }

  /**
   * The first occurrence of `pat` in `a + pat + b` (none starts inside `a`)
   * is deleted and the scan resumes on `b`: an occurrence anywhere in the
   * string is removed, not only a leading one.
   */
  lemma {:induction false} RemoveAllAt(a: string, pat: string, b: string)
    requires pat != []
    requires NoOccurrenceBefore(a + pat + b, pat, |a|)
    ensures RemoveAll(a + pat + b, pat) == a + RemoveAll(b, pat)
    decreases |a|
  {
    var s := a + pat + b;
    if a == [] {
      assert s[..|pat|] == pat;
      assert s[|pat|..] == b;
      RemoveAllHit(s, pat);
    } else {
      assert !OccursAt(s, pat, 0);
      RemoveAllSkip(s, pat);
      NoOccurrenceShift(s, pat, |a| - 1);
      assert s[1..] == a[1..] + pat + b;
      RemoveAllAt(a[1..], pat, b);
      ConsAppend(a, RemoveAll(b, pat));
    }
  }

  /** Text before the first occurrence of `pat` is kept as it is. */
  lemma {:induction false} RemoveAllKeepsPrefix(a: string, b: string, pat: string)
    requires pat != []
    requires NoOccurrenceBefore(a + b, pat, |a|)
    ensures RemoveAll(a + b, pat) == a + RemoveAll(b, pat)
    decreases |a|
  {
    var s := a + b;
    if a == [] {
      assert s == b;
    } else {
      assert !OccursAt(s, pat, 0);
      RemoveAllSkip(s, pat);
      NoOccurrenceShift(s, pat, |a| - 1);
      assert s[1..] == a[1..] + b;
      RemoveAllKeepsPrefix(a[1..], b, pat);
      ConsAppend(a, RemoveAll(b, pat));
    }
  }

  /** A string in which `pat` never occurs is left unchanged by `RemoveFirst`. */
  lemma {:induction false} RemoveFirstAbsent(s: string, pat: string)
    requires forall i :: !OccursAt(s, pat, i)
    ensures RemoveFirst(s, pat) == s
    decreases |s|
  {
    if pat != [] && s != [] {
      assert !OccursAt(s, pat, 0);
      RemoveFirstSkip(s, pat);
      NoOccurrenceInTail(s, pat);
      RemoveFirstAbsent(s[1..], pat);
      assert s == [s[0]] + s[1..];
    }
  }

  /** The leftmost occurrence of `pat` in `a + pat + b` is deleted and nothing else. */
  lemma {:induction false} RemoveFirstAt(a: string, pat: string, b: string)
    requires pat != []
    requires NoOccurrenceBefore(a + pat + b, pat, |a|)
    ensures RemoveFirst(a + pat + b, pat) == a + b
    decreases |a|
  {
    var s := a + pat + b;
    if a == [] {
      assert s[..|pat|] == pat;
      assert s[|pat|..] == b;
      RemoveFirstHit(s, pat);
    } else {
      assert !OccursAt(s, pat, 0);
      RemoveFirstSkip(s, pat);
      NoOccurrenceShift(s, pat, |a| - 1);
      assert s[1..] == a[1..] + pat + b;
      RemoveFirstAt(a[1..], pat, b);
      ConsAppend(a, b);
    }
  }

  // ---------------------------------------------------------------------------
  // s.split(sep) for a one-character separator
  // ---------------------------------------------------------------------------

  /** Index of the first `c` in `s`, or `|s|` when there is none. */
  function IndexOf(s: string, c: char): (i: nat)
    ensures i <= |s|
    ensures i < |s| ==> s[i] == c
    ensures forall j :: 0 <= j < i ==> s[j] != c
  {
    if s == [] then 0
    else if s[0] == c then 0
    else 1 + IndexOf(s[1..], c)
  }

  /**
   * `s.split(sep)`: the pieces between consecutive separators, always at
   * least one (`"".split("/") == [""]`), none containing the separator.
   */
  function Split(s: string, sep: char): (parts: seq<string>)
    ensures |parts| >= 1
    ensures forall k :: 0 <= k < |parts| ==> sep !in parts[k]
    decreases |s|
  {
    var i := IndexOf(s, sep);
    if i == |s| then [s] else [s[..i]] + Split(s[i + 1..], sep)
  }

  /** `sep.join(parts)`. */
  function Join(parts: seq<string>, sep: char): string
    requires |parts| >= 1
  {
    if |parts| == 1 then parts[0] else parts[0] + [sep] + Join(parts[1..], sep)
  }

  lemma JoinCons(parts: seq<string>, sep: char)
    requires |parts| >= 2
    ensures Join(parts, sep) == parts[0] + [sep] + Join(parts[1..], sep)
  {
  }

  lemma SplitAround<T>(s: seq<T>, i: int)
    requires 0 <= i < |s|
    ensures s == s[..i] + [s[i]] + s[i + 1..]
  {
  }

  /** Joining the pieces of a split gives back the original string. */
  lemma {:induction false} JoinSplit(s: string, sep: char)
    ensures Join(Split(s, sep), sep) == s
    decreases |s|
  {
    var i := IndexOf(s, sep);
    if i < |s| {
      var parts := [s[..i]] + Split(s[i + 1..], sep);
      assert Split(s, sep) == parts;
      JoinCons(parts, sep);
      assert parts[0] == s[..i] && parts[1..] == Split(s[i + 1..], sep);
      JoinSplit(s[i + 1..], sep);
      SplitAround(s, i);
    }
  }

  /** A separator-free piece followed by the separator is read off the front. */
  lemma SplitCons(a: string, sep: char, rest: string)
    requires sep !in a
    ensures Split(a + [sep] + rest, sep) == [a] + Split(rest, sep)
  {
    var s := a + [sep] + rest;
    IndexOfAfter(a, sep, rest);
    assert s[..|a|] == a;
    assert s[|a| + 1..] == rest;
  }

  /** Splitting a join of separator-free pieces gives back the pieces. */
  lemma {:induction false} SplitJoin(parts: seq<string>, sep: char)
    requires |parts| >= 1
    requires forall k :: 0 <= k < |parts| ==> sep !in parts[k]
    ensures Split(Join(parts, sep), sep) == parts
    decreases |parts|
  {
    if |parts| == 1 {
      assert IndexOf(parts[0], sep) == |parts[0]|;
    } else {
      JoinCons(parts, sep);
      SplitCons(parts[0], sep, Join(parts[1..], sep));
      SplitJoin(parts[1..], sep);
      assert parts == [parts[0]] + parts[1..];
    }
  }

  /**
   * The first piece of `s.split(sep)` is the text before the first separator:
   * a prefix of `s` that is all of `s` or is followed by `sep`.
   */
  lemma SplitFirst(s: string, sep: char)
    ensures Split(s, sep)[0] <= s
    ensures |Split(s, sep)[0]| == |s| || s[|Split(s, sep)[0]|] == sep
  {
  }

  /** The first piece of a split ends at the first separator. */
  lemma SplitHead(s: string, sep: char)
    ensures Split(s, sep)[0] == s[..IndexOf(s, sep)]
  {
  }

  /** The first `c` in `a + [c] + b`, with no `c` in `a`, is at `|a|`. */
  lemma {:induction false} IndexOfAfter(a: string, c: char, b: string)
    requires c !in a
    ensures IndexOf(a + [c] + b, c) == |a|
    decreases |a|
  {
    var s := a + [c] + b;
    if a != [] {
      assert s[0] == a[0];
      assert s[1..] == a[1..] + [c] + b;
      IndexOfAfter(a[1..], c, b);
    }
  }

  // ---------------------------------------------------------------------------
  // s.splitlines()
  // ---------------------------------------------------------------------------

  /** The characters at which `str.splitlines` ends a line. */
  predicate IsLineBreak(c: char) {
    c == '\n' || c == '\r' || c == '\U{000B}' || c == '\U{000C}'
    || c == '\U{001C}' || c == '\U{001D}' || c == '\U{001E}'
    || c == '\U{0085}' || c == '\U{2028}' || c == '\U{2029}'
  }

  predicate NoLineBreaks(s: string) {
    forall i :: 0 <= i < |s| ==> !IsLineBreak(s[i])
  }

  /** Index of the first line break in `s`, or `|s|` when there is none. */
  function LineBreakIndex(s: string): (i: nat)
    ensures i <= |s|
    ensures i < |s| ==> IsLineBreak(s[i])
    ensures NoLineBreaks(s[..i])
  {
    if s == [] then 0
    else if IsLineBreak(s[0]) then 0
    else
      var j := LineBreakIndex(s[1..]);
      assert s[..1 + j] == [s[0]] + s[1..][..j];
      1 + j
  }

  /**
   * `s.splitlines()`: the lines of `s` without their line endings, where
   * "\r\n" is one ending; text after the last ending forms a last line, and
   * a trailing ending adds no empty line.
   */
  function SplitLines(s: string): (lines: seq<string>)
    ensures forall k :: 0 <= k < |lines| ==> NoLineBreaks(lines[k])
    ensures s == [] <==> lines == []
    decreases |s|
  {
    if s == [] then []
    else
      var i := LineBreakIndex(s);
      if i == |s| then [s]
      else if s[i] == '\r' && i + 1 < |s| && s[i + 1] == '\n' then [s[..i]] + SplitLines(s[i + 2..])
      else [s[..i]] + SplitLines(s[i + 1..])
  }

  /** The text of a file holding `lines`, each ended by "\n". */
  function JoinLines(lines: seq<string>): string {
    if lines == [] then [] else lines[0] + "\n" + JoinLines(lines[1..])
  }

  /**
   * A break-free line ended by any one line break is read off the front of
   * the text, unless that break is a "\r" with a "\n" after it, which
   * together end one line (`SplitLinesCrLf`).
   */
  lemma SplitLinesBreak(line: string, c: char, rest: string)
    requires NoLineBreaks(line) && IsLineBreak(c)
    requires !(c == '\r' && rest != [] && rest[0] == '\n')
    ensures SplitLines(line + [c] + rest) == [line] + SplitLines(rest)
  {
    var s := line + [c] + rest;
    FirstBreakAfter(line, c, rest);
    assert s[..|line|] == line;
    assert s[|line|] == c;
    assert s[|line| + 1..] == rest;
    assert |line| + 1 < |s| ==> s[|line| + 1] == rest[0];
  }

  /** A lone "\r" ends a line, as "\n" does: "a\rb" is the lines "a" and "b". */
  lemma SplitLinesLoneCr()
    ensures SplitLines("a" + "\r" + "b") == ["a", "b"]
  {
    SplitLinesBreak("a", '\r', "b");
    SplitLinesOneLine("b");
  }

  /**
   * Newline-ended break-free lines are read back one by one, and whatever
   * text follows them is split on its own: a "\n" never pairs with what
   * comes after it.
   */
  lemma {:induction false} SplitLinesAfterLines(lines: seq<string>, tail: string)
    requires forall k :: 0 <= k < |lines| ==> NoLineBreaks(lines[k])
    ensures SplitLines(JoinLines(lines) + tail) == lines + SplitLines(tail)
    decreases |lines|
  {
    if lines == [] {
      assert JoinLines(lines) + tail == tail;
    } else {
      SplitLinesAfterLines(lines[1..], tail);
      SplitLinesStep(lines, tail);
      ConsAppend(lines, SplitLines(tail));
    }
  }

  /** One step of `SplitLinesAfterLines`: the first line comes off, then the rest as before. */
  lemma SplitLinesStep(lines: seq<string>, tail: string)
    requires lines != [] && NoLineBreaks(lines[0])
    requires SplitLines(JoinLines(lines[1..]) + tail) == lines[1..] + SplitLines(tail)
    ensures SplitLines(JoinLines(lines) + tail) == [lines[0]] + (lines[1..] + SplitLines(tail))
  {
    var rest := JoinLines(lines[1..]) + tail;
    var text := JoinLines(lines) + tail;
    JoinLinesCons(lines, tail);
    assert text == lines[0] + ['\n'] + rest;
    SplitLinesBreak(lines[0], '\n', rest);
  }

  lemma JoinLinesCons(lines: seq<string>, tail: string)
    requires lines != []
    ensures JoinLines(lines) + tail == lines[0] + ['\n'] + (JoinLines(lines[1..]) + tail)
  {
    assert JoinLines(lines) == lines[0] + ['\n'] + JoinLines(lines[1..]);
  }

  /** Every list of break-free lines is what `splitlines` reads back from its file text. */
  lemma SplitLinesJoinLines(lines: seq<string>)
    requires forall k :: 0 <= k < |lines| ==> NoLineBreaks(lines[k])
    ensures SplitLines(JoinLines(lines)) == lines
  {
    SplitLinesAfterLines(lines, []);
    assert JoinLines(lines) + [] == JoinLines(lines);
  }

  /** A non-empty break-free text is one line. */
  lemma SplitLinesOneLine(last: string)
    requires last != [] && NoLineBreaks(last)
    ensures SplitLines(last) == [last]
  {
    assert LineBreakIndex(last) == |last|;
  }

  /**
   * A file whose last line has no newline after it: the newline-ended lines
   * are read back, followed by that last line.
   */
  lemma SplitLinesUnterminated(lines: seq<string>, last: string)
    requires forall k :: 0 <= k < |lines| ==> NoLineBreaks(lines[k])
    requires last != [] && NoLineBreaks(last)
    ensures SplitLines(JoinLines(lines) + last) == lines + [last]
  {
    SplitLinesAfterLines(lines, last);
    SplitLinesOneLine(last);
  }

  /** "\r\n" ends a line as one ending, not as two. */
  lemma SplitLinesCrLf(line: string, rest: string)
    requires NoLineBreaks(line)
    ensures SplitLines(line + "\r\n" + rest) == [line] + SplitLines(rest)
  {
    var s := line + "\r\n" + rest;
    assert s == line + ['\r'] + (['\n'] + rest);
    FirstBreakAfter(line, '\r', ['\n'] + rest);
    assert s[..|line|] == line;
    assert s[|line|] == '\r' && s[|line| + 1] == '\n';
    assert s[|line| + 2..] == rest;
  }

  lemma {:induction false} FirstBreakAfter(line: string, c: char, rest: string)
    requires NoLineBreaks(line) && IsLineBreak(c)
    ensures LineBreakIndex(line + [c] + rest) == |line|
    decreases |line|
  {
    var s := line + [c] + rest;
    if line != [] {
      assert !IsLineBreak(s[0]);
      assert s[1..] == line[1..] + [c] + rest;
      FirstBreakAfter(line[1..], c, rest);
    }
  }

  // ---------------------------------------------------------------------------
  // s.lower() on ASCII letters, and case-insensitive equality
  // ---------------------------------------------------------------------------

  function LowerChar(c: char): char {
    if 'A' <= c <= 'Z' then (c as int + 32) as char else c
  }

  /**
   * `s.lower()`, with only the ASCII letters changed: no upper-case letter is
   * left, and the result equals `s` ignoring case.
   */
  function Lower(s: string): (r: string)
    ensures NoUpperAscii(r)
    ensures EqualsIgnoringCase(s, r)
  {
    seq(|s|, i requires 0 <= i < |s| => LowerChar(s[i]))
  }

  /** `c` and `d` are the same character or the two cases of one ASCII letter. */
  predicate SameIgnoringCase(c: char, d: char) {
    c == d
    || ('A' <= c <= 'Z' && d as int == c as int + 32)
    || ('A' <= d <= 'Z' && c as int == d as int + 32)
  }

  predicate EqualsIgnoringCase(a: string, b: string) {
    |a| == |b| && forall i :: 0 <= i < |a| ==> SameIgnoringCase(a[i], b[i])
  }

  /** A string with no upper-case ASCII letter in it. */
  predicate NoUpperAscii(t: string) {
    forall i :: 0 <= i < |t| ==> !('A' <= t[i] <= 'Z')
  }

  /** Comparing `s.lower()` with a lower-case literal is case-insensitive equality. */
  lemma LowerEqualsIff(s: string, t: string)
    requires NoUpperAscii(t)
    ensures Lower(s) == t <==> EqualsIgnoringCase(s, t)
  {
    if Lower(s) == t {
      forall i | 0 <= i < |s| ensures SameIgnoringCase(s[i], t[i]) {
        assert t[i] == LowerChar(s[i]);
      }
    }
    if EqualsIgnoringCase(s, t) {
      forall i | 0 <= i < |s| ensures Lower(s)[i] == t[i] {
        assert SameIgnoringCase(s[i], t[i]) && !('A' <= t[i] <= 'Z');
      }
    }
  }

  // ---------------------------------------------------------------------------
  // The order `sorted` uses on strings, and sorting a set of strings
  // ---------------------------------------------------------------------------

  /**
   * Python's `a < b` on strings: lexicographic by code point, a proper prefix
   * first. No string is less than itself.
   */
  predicate Less(a: string, b: string)
    ensures Less(a, b) ==> a != b
    ensures a < b ==> Less(a, b)
    decreases |a|
  {
    if a == [] then b != []
    else if b == [] then false
    else a[0] < b[0] || (a[0] == b[0] && Less(a[1..], b[1..]))
  }

  lemma {:induction false} LessAsymmetric(a: string, b: string)
    ensures !(Less(a, b) && Less(b, a))
    decreases |a|
  {
    if a != [] && b != [] && a[0] == b[0] {
      LessAsymmetric(a[1..], b[1..]);
    }
  }

  lemma {:induction false} LessTransitive(a: string, b: string, c: string)
    requires Less(a, b) && Less(b, c)
    ensures Less(a, c)
    decreases |a|
  {
    if a != [] && a[0] == b[0] && b[0] == c[0] {
      LessTransitive(a[1..], b[1..], c[1..]);
    }
  }

  lemma {:induction false} LessTotal(a: string, b: string)
    requires a != b
    ensures Less(a, b) || Less(b, a)
    decreases |a|
  {
    if a != [] && b != [] && a[0] == b[0] {
      assert a == [a[0]] + a[1..] && b == [b[0]] + b[1..];
      LessTotal(a[1..], b[1..]);
    }
  }

  /** Strictly ascending: sorted, and so free of duplicates. */
  predicate StrictlyAscending(s: seq<string>) {
    forall i, j :: 0 <= i < j < |s| ==> Less(s[i], s[j])
  }

  predicate IsLeast(m: string, s: set<string>) {
    m in s && forall y :: y in s ==> m == y || Less(m, y)
  }

  lemma {:induction false} LeastExists(s: set<string>)
    requires s != {}
    ensures exists m :: IsLeast(m, s)
    decreases s
  {
    var x :| x in s;
    if s - {x} == {} {
      assert s == {x};
      assert IsLeast(x, s);
    } else {
      LeastExists(s - {x});
      var m :| IsLeast(m, s - {x});
      if Less(x, m) {
        forall y | y in s ensures x == y || Less(x, y) {
          if y != x && y != m {
            LessTransitive(x, m, y);
          }
        }
        assert IsLeast(x, s);
      } else {
        LessTotal(x, m);
        assert IsLeast(m, s);
      }
    }
  }

  lemma LeastUnique(s: set<string>)
    ensures forall m1, m2 :: IsLeast(m1, s) && IsLeast(m2, s) ==> m1 == m2
  {
    forall m1, m2 | IsLeast(m1, s) && IsLeast(m2, s) ensures m1 == m2 {
      LessAsymmetric(m1, m2);
    }
  }

  /** The least string of a non-empty set. */
  function Least(s: set<string>): (m: string)
    requires s != {}
    ensures IsLeast(m, s)
  {
    LeastExists(s);
    LeastUnique(s);
    var m :| IsLeast(m, s); m
  }

  /** `sorted(s)` for a set of strings: its members, each once, in ascending order. */
  function SortedSet(s: set<string>): (r: seq<string>)
    ensures |r| == |s|
    ensures forall x :: x in r <==> x in s
    ensures StrictlyAscending(r)
    decreases s
  {
    if s == {} then []
    else
      var m := Least(s);
      [m] + SortedSet(s - {m})
  }
}
