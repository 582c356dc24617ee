/** The string operations the handlers rely on, with the semantics of the
    host language's `str` methods: `strip`, `splitlines`, `split`, `join`,
    `replace` and `endswith`. */
module Text {

  /** `str.isspace` for one character. */
  predicate IsSpace(c: char) {
    || ('\t' <= c <= '\r')
    || ('\U{1c}' <= c <= '\U{1f}')
    || c == ' ' || c == '\U{85}' || c == '\U{a0}' || c == '\U{1680}'
    || ('\U{2000}' <= c <= '\U{200a}')
    || c == '\U{2028}' || c == '\U{2029}' || c == '\U{202f}' || c == '\U{205f}' || c == '\U{3000}'
  }

  /** A line boundary of `str.splitlines` ("\r\n" is the one two-character boundary). */
  predicate IsLineBreak(c: char) {
    || c == '\n' || c == '\r' || c == '\U{0b}' || c == '\U{0c}'
    || c == '\U{1c}' || c == '\U{1d}' || c == '\U{1e}'
    || c == '\U{85}' || c == '\U{2028}' || c == '\U{2029}'
  }

  /** `s.strip() == ""`: the string is empty or whitespace only. */
  predicate IsBlank(s: string) {
    forall i :: 0 <= i < |s| ==> IsSpace(s[i])
  }

  predicate HasNoLineBreak(s: string) {
    forall i :: 0 <= i < |s| ==> !IsLineBreak(s[i])
  }

  predicate EndsWith(s: string, suffix: string) {
    |suffix| <= |s| && s[|s| - |suffix|..] == suffix
  }

  /** Any text followed by a suffix ends with it. */
  lemma EndsWithAppend(s: string, suffix: string)
    ensures EndsWith(s + suffix, suffix)
  {
    assert (s + suffix)[|s + suffix| - |suffix|..] == suffix;
  }

  /** Where the two classes differ: `\t`, `\x1f` and the no-break space are
      whitespace but do not end a line; the zero-width space is neither; the
      line and next-line separators are both. */
  lemma CharacterClasses()
    ensures IsSpace('\t') && !IsLineBreak('\t')
    ensures IsSpace('\U{1f}') && !IsLineBreak('\U{1f}')
    ensures IsSpace('\U{a0}') && !IsLineBreak('\U{a0}')
    ensures !IsSpace('\U{200b}') && !IsLineBreak('\U{200b}')
    ensures IsSpace('\U{85}') && IsLineBreak('\U{85}')
    ensures IsSpace('\U{2028}') && IsLineBreak('\U{2028}')
  {
  }

  // ---------------------------------------------------------------------------
  // strip

  /** A leading space in front of a stripped tail extends the blank prefix. */
  lemma StripStartStep(s: string, r: string)
    requires |s| > 0 && IsSpace(s[0])
    requires |r| <= |s| - 1 && r == s[1..][|s| - 1 - |r|..]
    requires IsBlank(s[1..][..|s| - 1 - |r|])
    ensures r == s[|s| - |r|..]
    ensures IsBlank(s[..|s| - |r|])
  {
    assert s[..|s| - |r|] == [s[0]] + s[1..][..|s| - 1 - |r|];
  }

  /** A trailing space after a stripped head extends the blank suffix. */
  lemma StripEndStep(s: string, r: string)
    requires |s| > 0 && IsSpace(s[|s| - 1])
    requires |r| <= |s| - 1 && r == s[..|s| - 1][..|r|]
    requires IsBlank(s[..|s| - 1][|r|..])
    ensures r == s[..|r|]
    ensures IsBlank(s[|r|..])
  {
    assert s[|r|..] == s[..|s| - 1][|r|..] + [s[|s| - 1]];
  }

  /** `s.lstrip()`: drops the leading whitespace, and only that. */
  function StripStart(s: string): (r: string)
    ensures |r| <= |s| && r == s[|s| - |r|..]
    ensures IsBlank(s[..|s| - |r|])
    ensures r == [] || !IsSpace(r[0])
  {
    if |s| > 0 && IsSpace(s[0]) then
      var r := StripStart(s[1..]);
      StripStartStep(s, r);
      r
    else
      s
  }

  /** `s.rstrip()`: drops the trailing whitespace, and only that. */
  function StripEnd(s: string): (r: string)
    ensures |r| <= |s| && r == s[..|r|]
    ensures IsBlank(s[|r|..])
    ensures r == [] || !IsSpace(r[|r| - 1])
  {
    if |s| > 0 && IsSpace(s[|s| - 1]) then
      var r := StripEnd(s[..|s| - 1]);
      StripEndStep(s, r);
      r
    else
      s
  }

  /** `r` is `s` with a blank prefix and a blank suffix cut off. */
  predicate IsTrimOf(r: string, s: string) {
    exists i :: 0 <= i <= |s| - |r| && r == s[i..i + |r|] && IsBlank(s[..i]) && IsBlank(s[i + |r|..])
  }

  /** Cutting a blank prefix and then a blank suffix leaves an infix between
      the two; it is empty exactly when the whole string was blank. */
  lemma TrimmedIsInfix(s: string, t: string, r: string)
    requires |t| <= |s| && t == s[|s| - |t|..] && IsBlank(s[..|s| - |t|])
    requires t == [] || !IsSpace(t[0])
    requires |r| <= |t| && r == t[..|r|] && IsBlank(t[|r|..])
    requires r == [] || !IsSpace(r[|r| - 1])
    ensures r == [] <==> IsBlank(s)
    ensures r == [] || (!IsSpace(r[0]) && !IsSpace(r[|r| - 1]))
    ensures IsTrimOf(r, s)
  {
    var i := |s| - |t|;
    assert r == s[i..i + |r|];
    assert s[i + |r|..] == t[|r|..];
    if r == [] {
      assert t == t[|r|..];
      assert s == s[..i] + t;
    }
    if t != [] {
      assert s[i] == t[0];
    }
    if r != [] {
      assert r[0] == t[0];
    }
  }

  /** `s.strip()`: the longest infix of `s` that neither starts nor ends with whitespace. */
  function Strip(s: string): (r: string)
    ensures r == [] <==> IsBlank(s)
    ensures r == [] || (!IsSpace(r[0]) && !IsSpace(r[|r| - 1]))
    ensures |r| <= |s|
    ensures IsTrimOf(r, s)
  {
    var t := StripStart(s);
    var r := StripEnd(t);
    TrimmedIsInfix(s, t, r);
    r
  }

  /** A string that neither starts nor ends with whitespace is its own strip,
      so stripping twice is stripping once. */
  lemma StripKeepsTrimmed(s: string)
    requires s == [] || (!IsSpace(s[0]) && !IsSpace(s[|s| - 1]))
    ensures Strip(s) == s
    ensures Strip(Strip(s)) == Strip(s)
  {
  }

  // ---------------------------------------------------------------------------
  // splitlines

  /** `splitlines` of `s`, where `current` is the part of the line read so far. */
  function LinesFrom(s: string, current: string): (lines: seq<string>)
    requires HasNoLineBreak(current)
    ensures forall i :: 0 <= i < |lines| ==> HasNoLineBreak(lines[i])
    ensures |s| > 0 || |current| > 0 ==> |lines| > 0
    decreases |s|
  {
    if |s| == 0 then
      if current == [] then [] else [current]
    else if IsLineBreak(s[0]) then
      var width := if s[0] == '\r' && |s| > 1 && s[1] == '\n' then 2 else 1;
      [current] + LinesFrom(s[width..], [])
    else
      LinesFrom(s[1..], current + [s[0]])
  }

  /** `s.splitlines()`: the lines of `s` without their boundaries; a final
      boundary does not open an empty last line. No line holds a boundary. */
  function SplitLines(s: string): (lines: seq<string>)
    ensures forall i :: 0 <= i < |lines| ==> HasNoLineBreak(lines[i])
    ensures |lines| == 0 <==> |s| == 0
  {
    LinesFrom(s, [])
  }

  // ---------------------------------------------------------------------------
  // split, join, replace

  predicate MatchAt(s: string, pattern: string, i: int) {
    0 <= i && i + |pattern| <= |s| && s[i..i + |pattern|] == pattern
  }

  /** `pattern in s`. */
  predicate Occurs(s: string, pattern: string) {
    exists i :: 0 <= i <= |s| && MatchAt(s, pattern, i)
  }

  /** `sep.join(parts)`. */
  function Join(parts: seq<string>, sep: string): string {
    if |parts| == 0 then []
    else if |parts| == 1 then parts[0]
    else parts[0] + sep + Join(parts[1..], sep)
  }

  /** `s.split(sep)` where `current` is the part read so far: scanning left
      to right, each non-overlapping occurrence of `sep` ends a part. */
  function SplitFrom(s: string, sep: string, current: string): (parts: seq<string>)
    requires |sep| > 0
    ensures |parts| > 0
    decreases |s|
  {
    if |s| < |sep| then [current + s]
    else if s[..|sep|] == sep then [current] + SplitFrom(s[|sep|..], sep, [])
    else SplitFrom(s[1..], sep, current + [s[0]])
  }

  /** `s.split(sep)`: never empty. */
  function Split(s: string, sep: string): (parts: seq<string>)
    requires |sep| > 0
    ensures |parts| > 0
  {
    SplitFrom(s, sep, [])
  }

  /** `s.replace(pattern, replacement)`: every non-overlapping occurrence of
      `pattern`, found left to right, is replaced. */
  function Replace(s: string, pattern: string, replacement: string): string
    requires |pattern| > 0
    decreases |s|
  {
    if |s| < |pattern| then s
    else if s[..|pattern|] == pattern then replacement + Replace(s[|pattern|..], pattern, replacement)
    else [s[0]] + Replace(s[1..], pattern, replacement)
  }

  // ---------------------------------------------------------------------------
  // Lemmas

  lemma JoinCons(head: string, tail: seq<string>, sep: string)
    requires |tail| > 0
    ensures Join([head] + tail, sep) == head + sep + Join(tail, sep)
  {
    assert ([head] + tail)[1..] == tail;
  }

  /** Replacing an occurrence by itself changes nothing. */
  lemma {:induction false} ReplaceBySelf(s: string, pattern: string)
    requires |pattern| > 0
    ensures Replace(s, pattern, pattern) == s
    decreases |s|
  {
    if |s| < |pattern| {
    } else if s[..|pattern|] == pattern {
      ReplaceBySelf(s[|pattern|..], pattern);
      assert s == s[..|pattern|] + s[|pattern|..];
    } else {
      ReplaceBySelf(s[1..], pattern);
      assert s == [s[0]] + s[1..];
    }
  }

  /** The step of `SplitFromThenJoin` at an occurrence of the separator. */
  lemma SplitFromThenJoinAtSeparator(s: string, sep: string, current: string, replacement: string)
    requires |sep| > 0 && |sep| <= |s| && s[..|sep|] == sep
    requires Join(SplitFrom(s[|sep|..], sep, []), replacement) == [] + Replace(s[|sep|..], sep, replacement)
    ensures Join(SplitFrom(s, sep, current), replacement) == current + Replace(s, sep, replacement)
  {
    var rest := SplitFrom(s[|sep|..], sep, []);
    var tail := Replace(s[|sep|..], sep, replacement);
    assert [] + tail == tail;
    JoinCons(current, rest, replacement);
    assert current + replacement + tail == current + (replacement + tail);
  }

  /** The step of `SplitFromThenJoin` at a character that starts no separator. */
  lemma SplitFromThenJoinAtOther(s: string, sep: string, current: string, replacement: string)
    requires |sep| > 0 && |sep| <= |s| && s[..|sep|] != sep
    requires Join(SplitFrom(s[1..], sep, current + [s[0]]), replacement)
      == current + [s[0]] + Replace(s[1..], sep, replacement)
    ensures Join(SplitFrom(s, sep, current), replacement) == current + Replace(s, sep, replacement)
  {
    var tail := Replace(s[1..], sep, replacement);
    assert current + [s[0]] + tail == current + ([s[0]] + tail);
  }

  /** Joining the parts of a split with `replacement` is replacing, from any
      partial first part `current`. */
  lemma {:induction false} SplitFromThenJoin(s: string, sep: string, current: string, replacement: string)
    requires |sep| > 0
    ensures Join(SplitFrom(s, sep, current), replacement) == current + Replace(s, sep, replacement)
    decreases |s|
  {
    if |s| < |sep| {
    } else if s[..|sep|] == sep {
      SplitFromThenJoin(s[|sep|..], sep, [], replacement);
      SplitFromThenJoinAtSeparator(s, sep, current, replacement);
    } else {
      SplitFromThenJoin(s[1..], sep, current + [s[0]], replacement);
      SplitFromThenJoinAtOther(s, sep, current, replacement);
    }
  }

  /** `s.replace(p, r) == r.join(s.split(p))`: replacing is splitting then joining. */
  lemma ReplaceIsSplitThenJoin(s: string, pattern: string, replacement: string)
    requires |pattern| > 0
    ensures Replace(s, pattern, replacement) == Join(Split(s, pattern), replacement)
  {
    SplitFromThenJoin(s, pattern, [], replacement);
    assert [] + Replace(s, pattern, replacement) == Replace(s, pattern, replacement);
  }

  /** `sep.join(s.split(sep)) == s`: splitting loses nothing. */
  lemma SplitThenJoin(s: string, sep: string)
    requires |sep| > 0
    ensures Join(Split(s, sep), sep) == s
  {
    ReplaceIsSplitThenJoin(s, sep, sep);
    ReplaceBySelf(s, sep);
  }

  /** A string without the pattern is left as it is by `replace`. */
  lemma {:induction false} ReplaceWithoutOccurrence(s: string, pattern: string, replacement: string)
    requires |pattern| > 0
    requires !Occurs(s, pattern)
    ensures Replace(s, pattern, replacement) == s
    decreases |s|
  {
    if |s| < |pattern| {
    } else {
      assert !MatchAt(s, pattern, 0);
      assert s[..|pattern|] != pattern;
      forall i | MatchAt(s[1..], pattern, i)
        ensures false
      {
        assert s[1..][i..i + |pattern|] == s[i + 1..i + 1 + |pattern|];
        assert MatchAt(s, pattern, i + 1);
      }
      ReplaceWithoutOccurrence(s[1..], pattern, replacement);
      assert s == [s[0]] + s[1..];
    }
  }

  /** A text with no occurrence of `p` starting inside `a` holds none in `a`. */
  lemma NoMatchInPrefix(a: string, b: string, p: string)
    requires |p| > 0
    requires forall i :: 0 <= i < |a| ==> !MatchAt(a + b, p, i)
    ensures !Occurs(a, p)
  {
    forall i | 0 <= i <= |a| ensures !MatchAt(a, p, i) {
      if i + |p| <= |a| {
        assert !MatchAt(a + b, p, i);
        assert a[i..i + |p|] == (a + b)[i..i + |p|];
      }
    }
  }

  /** The parts of a split do not contain the separator. `current` must not
      start an occurrence in the text it is continued by. */
  lemma {:induction false} SplitFromPartsLackSeparator(s: string, sep: string, current: string)
    requires |sep| > 0
    requires forall i :: 0 <= i < |current| ==> !MatchAt(current + s, sep, i)
    ensures forall k :: 0 <= k < |SplitFrom(s, sep, current)| ==> !Occurs(SplitFrom(s, sep, current)[k], sep)
    decreases |s|
  {
    if |s| < |sep| {
      assert SplitFrom(s, sep, current) == [current + s];
      forall i | 0 <= i <= |current + s| ensures !MatchAt(current + s, sep, i) {
      }
    } else if s[..|sep|] == sep {
      SplitFromPartsLackSeparator(s[|sep|..], sep, []);
      NoMatchInPrefix(current, s, sep);
    } else {
      var next := current + [s[0]];
      assert next + s[1..] == current + s;
      assert !MatchAt(current + s, sep, |current|) by {
        assert (current + s)[|current|..|current| + |sep|] == s[..|sep|];
      }
      SplitFromPartsLackSeparator(s[1..], sep, next);
    }
  }

  /** No part of a split contains the separator. */
  lemma SplitPartsLackSeparator(s: string, sep: string)
    requires |sep| > 0
    ensures forall k :: 0 <= k < |Split(s, sep)| ==> !Occurs(Split(s, sep)[k], sep)
  {
    SplitFromPartsLackSeparator(s, sep, []);
  }

  /** A text with no occurrence of the one-character pattern `[c]` does not contain `c`. */
  lemma NoOccurrenceOfChar(s: string, c: char)
    requires !Occurs(s, [c])
    ensures c !in s
  {
    forall j | 0 <= j < |s| ensures s[j] != c {
      assert !MatchAt(s, [c], j);
      assert s[j..j + 1] == [s[j]];
    }
  }

  /** Joining two or more parts ends with the separator followed by the last part. */
  lemma {:induction false} JoinSnoc(parts: seq<string>, sep: string)
    requires |parts| >= 2
    ensures Join(parts, sep) == Join(parts[..|parts| - 1], sep) + sep + parts[|parts| - 1]
    decreases |parts|
  {
    if |parts| == 2 {
      assert parts[..1] == [parts[0]];
    } else {
      var tail := parts[1..];
      JoinSnoc(tail, sep);
      assert tail[..|tail| - 1] == parts[..|parts| - 1][1..];
      assert parts[1..][|tail| - 1] == parts[|parts| - 1];
    }
  }

  /** Reading a piece without boundaries only extends the current line. */
  lemma {:induction false} LinesFromSkipsPlainText(piece: string, rest: string, current: string)
    requires HasNoLineBreak(current) && HasNoLineBreak(piece)
    ensures LinesFrom(piece + rest, current) == LinesFrom(rest, current + piece)
    decreases |piece|
  {
    if |piece| > 0 {
      assert (piece + rest)[0] == piece[0];
      assert (piece + rest)[1..] == piece[1..] + rest;
      LinesFromSkipsPlainText(piece[1..], rest, current + [piece[0]]);
      assert current + [piece[0]] + piece[1..] == current + piece;
    } else {
      assert piece + rest == rest;
      assert current + piece == current;
    }
  }

  /** A boundary ends the line read so far and the next line starts after it.
      A boundary is one line-break character, or the pair "\r\n"; a lone
      "\r" counts as one only when no "\n" follows it. */
  lemma LinesFromBoundary(line: string, boundary: string, rest: string)
    requires HasNoLineBreak(line)
    requires || boundary == "\r\n"
             || (|boundary| == 1 && IsLineBreak(boundary[0])
                 && !(boundary[0] == '\r' && |rest| > 0 && rest[0] == '\n'))
    ensures LinesFrom(line + boundary + rest, []) == [line] + LinesFrom(rest, [])
  {
    var tail := boundary + rest;
    LinesFromSkipsPlainText(line, tail, []);
    assert line + boundary + rest == line + tail;
    assert [] + line == line;
    assert tail[|boundary|..] == rest;
    if boundary == "\r\n" {
      assert tail[0] == '\r' && tail[1] == '\n';
    } else {
      assert tail[0] == boundary[0];
      assert |tail| > 1 ==> tail[1] == rest[0];
    }
  }

  /** A Windows line ending is one boundary, and a final boundary opens no
      empty line. */
  lemma SplitLinesCrlfExample()
    ensures SplitLines("a\r\nb") == ["a", "b"]
    ensures SplitLines("a\r\n") == ["a"]
  {
    LinesFromBoundary("a", "\r\n", "b");
    assert "a" + "\r\n" + "b" == "a\r\nb";
    LinesFromSkipsPlainText("b", [], []);
    assert "b" + [] == "b" && [] + "b" == "b";
    LinesFromBoundary("a", "\r\n", []);
    assert "a" + "\r\n" + [] == "a\r\n";
  }

  /** Lines without boundaries, joined by "\n" (the last one non-empty), split back to themselves. */
  lemma {:induction false} JoinThenSplitLines(lines: seq<string>)
    requires forall i :: 0 <= i < |lines| ==> HasNoLineBreak(lines[i])
    requires |lines| == 0 || lines[|lines| - 1] != []
    ensures SplitLines(Join(lines, "\n")) == lines
    decreases |lines|
  {
    if |lines| == 1 {
      LinesFromSkipsPlainText(lines[0], [], []);
      assert lines[0] + [] == lines[0];
      assert [] + lines[0] == lines[0];
    } else if |lines| > 1 {
      var tail := lines[1..];
      var rest := Join(tail, "\n");
      JoinThenSplitLines(tail);
      assert Join(lines, "\n") == lines[0] + ("\n" + rest);
      LinesFromSkipsPlainText(lines[0], "\n" + rest, []);
      assert ("\n" + rest)[1..] == rest;
      assert [] + lines[0] == lines[0];
      assert lines == [lines[0]] + tail;
    }
  }

  lemma ExtendByFirst(current: string, s: string)
    requires |s| > 0
    ensures current + [s[0]] + s[1..] == current + s
  {
    assert s == [s[0]] + s[1..];
  }

  /** A leading "\n" ends the current line. */
  lemma LinesFromNewline(s: string, current: string)
    requires HasNoLineBreak(current)
    requires |s| > 0 && s[0] == '\n'
    ensures LinesFrom(s, current) == [current] + LinesFrom(s[1..], [])
  {
  }

  /** Text whose only boundary is "\n" and that does not end in one is the
      "\n"-join of its lines. */
  lemma {:induction false} LinesFromThenJoin(s: string, current: string)
    requires HasNoLineBreak(current)
    requires forall i :: 0 <= i < |s| && IsLineBreak(s[i]) ==> s[i] == '\n'
    requires |s| == 0 || s[|s| - 1] != '\n'
    ensures Join(LinesFrom(s, current), "\n") == current + s
    decreases |s|
  {
    if |s| == 0 {
      assert current + s == current;
    } else {
      var t := s[1..];
      assert forall i :: 0 <= i < |t| && IsLineBreak(t[i]) ==> t[i] == '\n' by {
        assert forall i :: 0 <= i < |t| ==> t[i] == s[i + 1];
      }
      if IsLineBreak(s[0]) {
        assert |t| > 0;
        var rest := LinesFrom(t, []);
        LinesFromNewline(s, current);
        LinesFromThenJoin(t, []);
        assert Join(rest, "\n") == t by {
          assert [] + t == t;
        }
        JoinCons(current, rest, "\n");
        assert "\n" == [s[0]];
        ExtendByFirst(current, s);
      } else {
        assert LinesFrom(s, current) == LinesFrom(t, current + [s[0]]);
        LinesFromThenJoin(t, current + [s[0]]);
        ExtendByFirst(current, s);
      }
    }
  }

  lemma SplitLinesThenJoin(s: string)
    requires forall i :: 0 <= i < |s| && IsLineBreak(s[i]) ==> s[i] == '\n'
    requires |s| == 0 || s[|s| - 1] != '\n'
    ensures Join(SplitLines(s), "\n") == s
  {
    LinesFromThenJoin(s, []);
    assert [] + s == s;
  }

  /** Three lines, the middle one blank: each boundary ends a line. */
  lemma SplitLinesExample()
    ensures SplitLines("{not json\n \n{}") == ["{not json", " ", "{}"]
  {
    var lines := ["{not json", " ", "{}"];
    assert forall i :: 0 <= i < |lines| ==> HasNoLineBreak(lines[i]);
    JoinThenSplitLines(lines);
    assert Join(lines[2..], "\n") == "{}";
    assert Join(lines[1..], "\n") == " \n{}";
    assert Join(lines, "\n") == "{not json\n \n{}";
  }
}
