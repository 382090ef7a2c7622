/** Python's `str.strip()` (no argument) and `str.splitlines()` (no `keepends`),
    as the server applies them to the executor's standard output. */
module PyText {

  /** `str.isspace()` for one character: the Unicode code points CPython treats
      as whitespace. `strip()` removes exactly these. */
  predicate IsSpace(c: char) {
    || c == ' '
    || ('\t' <= c <= '\r')
    || ('\U{1C}' <= c <= '\U{1F}')
    || c == '\U{85}'
    || c == '\U{A0}'
    || c == '\U{1680}'
    || ('\U{2000}' <= c <= '\U{200A}')
    || c == '\U{2028}'
    || c == '\U{2029}'
    || c == '\U{202F}'
    || c == '\U{205F}'
    || c == '\U{3000}'
  }

  /** The characters at which `str.splitlines()` ends a line. A carriage return
      directly followed by a line feed ends one line, not two. */
  predicate IsLineBreak(c: char) {
    || c == '\n'
    || c == '\r'
    || c == '\U{0B}'
    || c == '\U{0C}'
    || ('\U{1C}' <= c <= '\U{1E}')
    || c == '\U{85}'
    || c == '\U{2028}'
    || c == '\U{2029}'
  }

  predicate AllSpace(s: string) {
    forall k :: 0 <= k < |s| ==> IsSpace(s[k])
  }

  predicate NoLineBreak(s: string) {
    forall k :: 0 <= k < |s| ==> !IsLineBreak(s[k])
  }

  /** `s.lstrip()`: the longest suffix of `s` that does not begin with whitespace. */
  function StripLeading(s: string): (r: string)
    ensures |r| <= |s| && r == s[|s| - |r|..]
    ensures AllSpace(s[..|s| - |r|])
    ensures r == [] || !IsSpace(r[0])
  {
    if s != [] && IsSpace(s[0]) then
      var r := StripLeading(s[1..]);
      assert s[..|s| - |r|] == [s[0]] + s[1..][..|s| - 1 - |r|];
      r
    else s
  }

  /** `s.rstrip()`: the longest prefix of `s` that does not end with whitespace. */
  function StripTrailing(s: string): (r: string)
    ensures |r| <= |s| && r == s[..|r|]
    ensures AllSpace(s[|r|..])
    ensures r == [] || !IsSpace(r[|r| - 1])
  {
    if s != [] && IsSpace(s[|s| - 1]) then
      var r := StripTrailing(s[..|s| - 1]);
      assert s[|r|..] == s[..|s| - 1][|r|..] + [s[|s| - 1]];
      r
    else s
  }

  /** `s.strip()`: `s` without its leading and trailing whitespace. The result is a
      contiguous piece of `s`, everything cut off is whitespace, and what is left
      neither begins nor ends with whitespace; it is empty exactly when `s` is
      whitespace only. */
  function Strip(s: string): (r: string)
    ensures |r| <= |s|
    ensures r == [] <==> AllSpace(s)
    ensures r == [] || (!IsSpace(r[0]) && !IsSpace(r[|r| - 1]))
    ensures exists i :: 0 <= i <= |s| - |r| && r == s[i..i + |r|]
                        && AllSpace(s[..i]) && AllSpace(s[i + |r|..])
  {
    var t := StripTrailing(s);
    var r := StripLeading(t);
    StripPieces(s, t, r);
    assert r == s[|t| - |r|..|t| - |r| + |r|];
    r
  }

  /** A whitespace-free-ended piece, cut out of `s` from the right and then from
      the left, is `s` between two runs of whitespace. */
  lemma StripPieces(s: string, t: string, r: string)
    requires |t| <= |s| && t == s[..|t|] && AllSpace(s[|t|..])
    requires t == [] || !IsSpace(t[|t| - 1])
    requires |r| <= |t| && r == t[|t| - |r|..] && AllSpace(t[..|t| - |r|])
    requires r == [] || !IsSpace(r[0])
    ensures r == s[|t| - |r|..|t|]
    ensures AllSpace(s[..|t| - |r|]) && AllSpace(s[|t|..])
    ensures r == [] <==> AllSpace(s)
    ensures r == [] || (!IsSpace(r[0]) && !IsSpace(r[|r| - 1]))
  {
    var i := |t| - |r|;
    assert s[..i] == t[..i];
    if r == [] {
      assert t[..i] == t;
      assert s == t + s[|t|..];
    } else {
      assert r[|r| - 1] == t[|t| - 1];
      assert r[0] == s[i];
    }
  }

  /** Where the first line of `s` ends: the index of its first line break, or |s|. */
  function LineEnd(s: string): (i: nat)
    ensures i <= |s|
    ensures NoLineBreak(s[..i])
    ensures i < |s| ==> IsLineBreak(s[i])
  {
    if s == [] || IsLineBreak(s[0]) then 0 else 1 + LineEnd(s[1..])
  }

  /** `s.splitlines()`: the lines of `s` without their terminators. A final
      terminator does not open an empty last line, and the empty string has
      no lines at all. */
  function SplitLines(s: string): (lines: seq<string>)
    ensures lines == [] <==> s == []
    ensures |lines| <= |s|
    decreases |s|
  {
    if s == [] then []
    else
      var i := LineEnd(s);
      if i == |s| then [s]
      else
        var next := if s[i] == '\r' && i + 1 < |s| && s[i + 1] == '\n' then i + 2 else i + 1;
        [s[..i]] + SplitLines(s[next..])
  }

  /** No line that `SplitLines` returns contains a line break. */
  lemma {:induction false} SplitLinesBreakFree(s: string)
    ensures forall n :: 0 <= n < |SplitLines(s)| ==> NoLineBreak(SplitLines(s)[n])
    decreases |s|
  {
    if s != [] && LineEnd(s) < |s| {
      var i := LineEnd(s);
      var next := if s[i] == '\r' && i + 1 < |s| && s[i + 1] == '\n' then i + 2 else i + 1;
      SplitLinesBreakFree(s[next..]);
      BreakFreeCons(s[..i], SplitLines(s[next..]), SplitLines(s));
    } else if s != [] {
      assert s[..|s|] == s;
    }
  }

  lemma BreakFreeCons(head: string, tail: seq<string>, lines: seq<string>)
    requires lines == [head] + tail && NoLineBreak(head)
    requires forall n :: 0 <= n < |tail| ==> NoLineBreak(tail[n])
    ensures forall n :: 0 <= n < |lines| ==> NoLineBreak(lines[n])
  {
    assert forall n :: 0 < n < |lines| ==> lines[n] == tail[n - 1];
  }

  /** A line with no break in it, followed by a break, ends at that break. */
  lemma LineEndAt(line: string, rest: string)
    requires NoLineBreak(line) && rest != [] && IsLineBreak(rest[0])
    ensures LineEnd(line + rest) == |line|
    ensures (line + rest)[..|line|] == line
  {
    var s := line + rest;
    var i := LineEnd(s);
    assert s[|line|] == rest[0];
    assert forall k :: 0 <= k < |line| ==> s[k] == line[k];
  }

  /** Any break but a carriage return directly followed by a line feed ends one
      line: the text before it is the first line, and the text after it is split
      on its own. */
  lemma SplitAtBreak(line: string, c: char, rest: string)
    requires NoLineBreak(line) && IsLineBreak(c)
    requires c != '\r' || rest == [] || rest[0] != '\n'
    ensures SplitLines(line + [c] + rest) == [line] + SplitLines(rest)
  {
    var s := line + [c] + rest;
    assert s == line + ([c] + rest);
    LineEndAt(line, [c] + rest);
    assert s[|line| + 1..] == rest;
  }

  /** A carriage return directly followed by a line feed ends one line, not two. */
  lemma SplitAtCrLf(line: string, rest: string)
    requires NoLineBreak(line)
    ensures SplitLines(line + "\r\n" + rest) == [line] + SplitLines(rest)
  {
    var s := line + "\r\n" + rest;
    assert s == line + ("\r\n" + rest);
    LineEndAt(line, "\r\n" + rest);
    assert s[|line| + 2..] == rest;
  }

  /** Text with no break in it is a single line; no empty line follows it. */
  lemma SplitSingleLine(line: string)
    requires NoLineBreak(line) && line != []
    ensures SplitLines(line) == [line]
  {
    assert line[..|line|] == line;
  }

  /** Each line followed by a line feed: the text that `SplitLines` takes apart. */
  function Terminated(lines: seq<string>): string {
    if lines == [] then [] else lines[0] + "\n" + Terminated(lines[1..])
  }

  /** Lines with no line break in them, each written out with a line feed after it,
      split back into exactly those lines. */
  lemma {:induction false} SplitTerminated(lines: seq<string>)
    requires forall n :: 0 <= n < |lines| ==> NoLineBreak(lines[n])
    ensures SplitLines(Terminated(lines)) == lines
    decreases |lines|
  {
    if lines != [] {
      var l := lines[0];
      var rest := Terminated(lines[1..]);
      var s := Terminated(lines);
      assert s == l + "\n" + rest;
      var i := LineEnd(s);
      assert s[|l|] == '\n';
      assert i == |l|;
      assert s[..i] == l;
      assert s[i + 1..] == rest;
      SplitTerminated(lines[1..]);
    }
  }

  /** Lines joined with a line feed between each pair (Python's `"\n".join`). */
  function JoinLines(lines: seq<string>): string
    decreases |lines|
  {
    if lines == [] then []
    else if |lines| == 1 then lines[0]
    else lines[0] + "\n" + JoinLines(lines[1..])
  }

  /** For text whose only line break is the line feed, splitting loses nothing but
      a final line feed: joining the lines back, and restoring that final line feed
      when there was one, gives the text again. */
  lemma {:induction false} JoinSplitLines(s: string)
    requires OnlyFeedBreaks(s)
    ensures s == JoinLines(SplitLines(s)) + FinalFeed(s)
    decreases |s|, 1
  {
    if s != [] {
      var i := LineEnd(s);
      if i == |s| {
        assert s[..i] == s;
        assert SplitLines(s) == [s];
      } else {
        JoinAfterFeed(s);
      }
    }
  }

  /** The line feed is the only line break in `s`. */
  predicate OnlyFeedBreaks(s: string) {
    forall k :: 0 <= k < |s| && IsLineBreak(s[k]) ==> s[k] == '\n'
  }

  /** The step of `JoinSplitLines` for text that has a line break. */
  lemma {:induction false} JoinAfterFeed(s: string)
    requires OnlyFeedBreaks(s) && LineEnd(s) < |s|
    ensures s == JoinLines(SplitLines(s)) + FinalFeed(s)
    decreases |s|, 0
  {
    var i := LineEnd(s);
    var head, rest := s[..i], s[i + 1..];
    assert s[i] == '\n';
    SplitAtFeed(s);
    if rest == [] {
      assert SplitLines(s) == [head];
    } else {
      FeedBreaksSuffix(s, i + 1);
      JoinSplitLines(rest);
      JoinAfterHead(s, head, rest, SplitLines(rest));
    }
  }

  /** Text that is a line, a line feed and a non-empty rest joins back from the
      line and the rest's lines. */
  lemma JoinAfterHead(s: string, head: string, rest: string, lines: seq<string>)
    requires s == head + "\n" + rest && rest != [] && lines != []
    requires rest == JoinLines(lines) + FinalFeed(rest)
    ensures s == JoinLines([head] + lines) + FinalFeed(s)
  {
    JoinCons(head, lines);
    assert FinalFeed(s) == FinalFeed(rest);
    AppendAssoc(head + "\n", JoinLines(lines), FinalFeed(rest));
  }

  lemma FeedBreaksSuffix(s: string, j: nat)
    requires OnlyFeedBreaks(s) && j <= |s|
    ensures OnlyFeedBreaks(s[j..])
  {
    forall k | 0 <= k < |s| - j
      ensures s[j..][k] == s[j + k]
    {
    }
  }

  lemma AppendAssoc(a: string, b: string, c: string)
    ensures (a + b) + c == a + (b + c)
  {
  }

  /** Text whose first line break is a line feed is its first line, the feed, and
      the rest; its lines are the first line and the lines of the rest. */
  lemma SplitAtFeed(s: string)
    requires LineEnd(s) < |s| && s[LineEnd(s)] == '\n'
    ensures s == s[..LineEnd(s)] + "\n" + s[LineEnd(s) + 1..]
    ensures SplitLines(s) == [s[..LineEnd(s)]] + SplitLines(s[LineEnd(s) + 1..])
    ensures s[LineEnd(s) + 1..] == [] ==> FinalFeed(s) == "\n"
  {
    CutAt(s, LineEnd(s));
  }

  lemma CutAt(s: string, i: nat)
    requires i < |s|
    ensures s == s[..i] + [s[i]] + s[i + 1..]
  {
  }

  lemma JoinCons(head: string, tail: seq<string>)
    requires tail != []
    ensures JoinLines([head] + tail) == head + "\n" + JoinLines(tail)
  {
    assert ([head] + tail)[1..] == tail;
  }

  /** The line feed that ends `s`, if it ends with one. */
  function FinalFeed(s: string): string {
    if s != [] && s[|s| - 1] == '\n' then "\n" else []
  }
}
