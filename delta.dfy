/**
 * The delta extractor of FileWatcherService: a line-suffix heuristic that
 * finds what was appended to a file since the last stored change record.
 *
 * Lines are produced the way Java's `String.split("\\r?\\n")` produces them:
 * the input is cut at every `\n` or `\r\n` (scanning left to right), trailing
 * empty strings are removed, and an input with no match at all (in particular
 * the empty string) yields a one-element array holding the input itself.
 */
module Delta {

  /** The line break used by `String.join("\n", ...)`. */
  const LineBreak: string := "\n"

  /** Pieces of `s` between matches of `\r?\n`, scanning left to right, with every
      empty piece kept (what the regex split produces before its trailing empties are removed). */
  function Pieces(s: string): (r: seq<string>)
    ensures |r| >= 1
    decreases |s|
  {
    if |s| == 0 then [""]
    else if s[0] == '\n' then [""] + Pieces(s[1..])
    else if |s| >= 2 && s[0] == '\r' && s[1] == '\n' then [""] + Pieces(s[2..])
    else
      var rest := Pieces(s[1..]);
      [[s[0]] + rest[0]] + rest[1..]
  }

  /** Removes the empty strings at the end of `p`, as `split` with limit 0 does. */
  function DropTrailingEmpty(p: seq<string>): (r: seq<string>)
    ensures r <= p
    ensures r == [] || r[|r| - 1] != ""
    ensures forall k :: |r| <= k < |p| ==> p[k] == ""
  {
    if p == [] then []
    else if p[|p| - 1] == "" then DropTrailingEmpty(p[..|p| - 1])
    else p
  }

  /** `s.split("\\r?\\n")`. Java returns `[s]` when nothing matches; for a non-empty `s`
      without line feed the only piece is `s` itself (`SplitOfLine`), so only the empty
      input needs its own case. */
  function Split(s: string): (r: seq<string>)
    ensures r == [""] || r == [] || r[|r| - 1] != ""
  {
    if s == "" then [""] else DropTrailingEmpty(Pieces(s))
  }

  /** `String.join("\n", lines)`. */
  function Join(lines: seq<string>): string {
    if |lines| == 0 then ""
    else if |lines| == 1 then lines[0]
    else lines[0] + LineBreak + Join(lines[1..])
  }

  /** A text without line feed is a single piece. */
  lemma {:induction false} PiecesOfLine(s: string)
    requires '\n' !in s
    ensures Pieces(s) == [s]
    decreases |s|
  {
    if |s| > 0 {
      assert s == [s[0]] + s[1..];
      assert '\n' !in s[1..];
      PiecesOfLine(s[1..]);
    }
  }

  /** No piece holds a line feed. */
  lemma {:induction false} PiecesHaveNoBreak(s: string)
    ensures forall k :: 0 <= k < |Pieces(s)| ==> '\n' !in Pieces(s)[k]
    decreases |s|
  {
    if |s| == 0 {
    } else if s[0] == '\n' {
      PiecesHaveNoBreak(s[1..]);
    } else if |s| >= 2 && s[0] == '\r' && s[1] == '\n' {
      PiecesHaveNoBreak(s[2..]);
    } else {
      PiecesHaveNoBreak(s[1..]);
      var rest := Pieces(s[1..]);
      assert '\n' !in [s[0]] + rest[0];
      assert Pieces(s)[1..] == rest[1..];
    }
  }

  /** Java's no-match case: a text without line feed splits to itself. */
  lemma SplitOfLine(s: string)
    requires '\n' !in s
    ensures Split(s) == [s]
  {
    PiecesOfLine(s);
  }

  /** No line of a split holds a line feed. */
  lemma SplitHasNoBreak(s: string)
    ensures forall k :: 0 <= k < |Split(s)| ==> '\n' !in Split(s)[k]
  {
    PiecesHaveNoBreak(s);
  }

  /** A join is empty exactly when there is no line or a single empty line. */
  lemma JoinEmpty(lines: seq<string>)
    ensures Join(lines) == "" <==> lines == [] || lines == [""]
  {
    if |lines| >= 2 {
      assert |Join(lines)| >= |LineBreak|;
    }
  }

  /** `List.lastIndexOf`: the largest index holding `x`, or -1 when `x` does not occur. */
  function LastIndexOf(s: seq<string>, x: string): (i: int)
    ensures -1 <= i < |s|
    ensures i == -1 <==> x !in s
    ensures 0 <= i ==> s[i] == x && forall j :: i < j < |s| ==> s[j] != x
  {
    if |s| == 0 then -1
    else if s[|s| - 1] == x then |s| - 1
    else LastIndexOf(s[..|s| - 1], x)
  }

  ghost predicate IsSuffix(a: seq<string>, b: seq<string>) {
    |a| <= |b| && a == b[|b| - |a|..]
  }

  /** The lines of `currentContent` that `extractNewChanges` considers new. */
  function NewLines(lastKnownChangeContent: string, currentContent: string): (r: seq<string>)
    ensures IsSuffix(r, Split(currentContent))
  {
    var lastLines := Split(lastKnownChangeContent);
    var currentLines := Split(currentContent);
    var lastLineIndex := if |lastLines| > 0 then LastIndexOf(currentLines, lastLines[|lastLines| - 1]) else -1;
    if lastLineIndex == -1 then currentLines else currentLines[lastLineIndex + 1..]
  }

  /** `extractNewChanges`: the new lines, joined with a line feed. */
  function ExtractNewChanges(lastKnownChangeContent: string, currentContent: string): string {
    Join(NewLines(lastKnownChangeContent, currentContent))
  }

  /** The delta is the join of a suffix of the current lines, starting at the returned index. */
  lemma ExtractIsJoinedSuffix(lastKnown: string, current: string) returns (k: nat)
    ensures k <= |Split(current)| && ExtractNewChanges(lastKnown, current) == Join(Split(current)[k..])
  {
    var lines := Split(current);
    k := |lines| - |NewLines(lastKnown, current)|;
  }

  // ---------------------------------------------------------------------------
  // The extractor's behaviour, case by case

  /** An unchanged file yields no delta, whatever its content (empty, only line breaks, or text). */
  lemma ExtractUnchanged(x: string)
    ensures ExtractNewChanges(x, x) == ""
  {
    var lines := Split(x);
    if |lines| > 0 {
      assert LastIndexOf(lines, lines[|lines| - 1]) == |lines| - 1;
      assert NewLines(x, x) == [];
    } else {
      assert NewLines(x, x) == [];
    }
  }

  /** When the last old line occurs among the current lines, the delta is exactly the
      lines after its LAST occurrence, whose position is returned. */
  lemma ExtractAfterLastAnchor(lastKnown: string, current: string) returns (i: nat)
    requires Split(lastKnown) != []
    requires Split(lastKnown)[|Split(lastKnown)| - 1] in Split(current)
    ensures var anchor := Split(lastKnown)[|Split(lastKnown)| - 1];
            var lines := Split(current);
            && i < |lines| && lines[i] == anchor
            && (forall j :: i < j < |lines| ==> lines[j] != anchor)
            && ExtractNewChanges(lastKnown, current) == Join(lines[i + 1..])
  {
    var lastLines := Split(lastKnown);
    var lines := Split(current);
    i := LastIndexOf(lines, lastLines[|lastLines| - 1]);
    assert NewLines(lastKnown, current) == lines[i + 1..];
  }

  /** When the old content has no lines, or its last line is not among the current
      lines, the whole current content (re-joined) is the delta. */
  lemma ExtractWithoutAnchor(lastKnown: string, current: string)
    requires Split(lastKnown) == [] || Split(lastKnown)[|Split(lastKnown)| - 1] !in Split(current)
    ensures ExtractNewChanges(lastKnown, current) == Join(Split(current))
  {
    assert NewLines(lastKnown, current) == Split(current);
  }

  /** Appending lines that do not repeat the old last line yields exactly those lines. */
  lemma ExtractAppendedLines(lastKnown: string, current: string, added: seq<string>)
    requires Split(lastKnown) != []
    requires Split(current) == Split(lastKnown) + added
    requires Split(lastKnown)[|Split(lastKnown)| - 1] !in added
    ensures ExtractNewChanges(lastKnown, current) == Join(added)
  {
    var old_ := Split(lastKnown);
    AnchorBeforeAdded(old_, added);
    assert NewLines(lastKnown, current) == added;
  }

  /** The last old line, absent from the added lines, is last found where the old lines end. */
  lemma AnchorBeforeAdded(old_: seq<string>, added: seq<string>)
    requires old_ != [] && old_[|old_| - 1] !in added
    ensures LastIndexOf(old_ + added, old_[|old_| - 1]) == |old_| - 1
    ensures (old_ + added)[|old_|..] == added
  {
    var lines := old_ + added;
    var n := |old_|;
    assert lines[n - 1] == old_[n - 1];
    assert forall j :: n <= j < |lines| ==> lines[j] == added[j - n];
    assert forall j :: n <= j < |lines| ==> lines[j] != old_[n - 1];
  }

  // ---------------------------------------------------------------------------
  // Split and Join

  /** The last piece of `a + "\n" + b` is `b` when `b` holds no line feed. */
  lemma {:induction false} PiecesLast(a: string, b: string)
    requires '\n' !in b
    ensures var p := Pieces(a + LineBreak + b); |p| >= 2 && p[|p| - 1] == b
    decreases |a|
  {
    var s := a + LineBreak + b;
    if |a| == 0 {
      assert s[1..] == b;
      PiecesOfLine(b);
    } else if a[0] == '\n' {
      assert s[1..] == a[1..] + LineBreak + b;
      PiecesLast(a[1..], b);
    } else if |a| == 1 && a[0] == '\r' {
      assert s[2..] == b;
      PiecesOfLine(b);
    } else if |a| >= 2 && a[0] == '\r' && a[1] == '\n' {
      assert s[2..] == a[2..] + LineBreak + b;
      PiecesLast(a[2..], b);
    } else {
      assert s[1..] == a[1..] + LineBreak + b;
      PiecesLast(a[1..], b);
    }
  }

  /** A line that holds no line feed and does not end in a carriage return is cut off whole. */
  lemma {:induction false} PiecesLine(a: string, b: string)
    requires '\n' !in a
    requires a == "" || a[|a| - 1] != '\r'
    ensures Pieces(a + LineBreak + b) == [a] + Pieces(b)
    decreases |a|
  {
    var s := a + LineBreak + b;
    if |a| == 0 {
      assert s[1..] == b;
    } else {
      assert s[1..] == a[1..] + LineBreak + b;
      PiecesLine(a[1..], b);
      assert [a[0]] + a[1..] == a;
    }
  }

  /** Joining splits back into the last line: `Join(lines) == Join(init) + "\n" + last`. */
  lemma {:induction false} JoinSnoc(lines: seq<string>)
    requires |lines| >= 2
    ensures Join(lines) == Join(lines[..|lines| - 1]) + LineBreak + lines[|lines| - 1]
    decreases |lines|
  {
    if |lines| > 2 {
      JoinSnoc(lines[1..]);
      assert lines[1..][..|lines| - 2] == lines[..|lines| - 1][1..];
    }
  }

  /** Splitting a join of lines gives back the last line, so the anchor of a stored delta
      is the last line of the content it was computed from. */
  lemma SplitJoinLast(lines: seq<string>)
    requires lines != []
    requires '\n' !in lines[|lines| - 1]
    requires |lines| >= 2 ==> lines[|lines| - 1] != ""
    ensures var r := Split(Join(lines)); r != [] && r[|r| - 1] == lines[|lines| - 1]
  {
    var b := lines[|lines| - 1];
    if |lines| == 1 {
      SplitOfLine(b);
    } else {
      JoinSnoc(lines);
      var a := Join(lines[..|lines| - 1]);
      var s := a + LineBreak + b;
      assert Join(lines) == s;
      PiecesLast(a, b);
      var p := Pieces(s);
      assert p[|p| - 1] != "";
      assert DropTrailingEmpty(p) == p;
      assert s != "" by {
        assert |s| >= 1;
      }
      assert Split(s) == p;
    }
  }

  /** Without carriage returns, `Join` undoes `Pieces`. */
  lemma {:induction false} JoinPieces(s: string)
    requires '\r' !in s
    ensures Join(Pieces(s)) == s
    decreases |s|
  {
    if |s| == 0 {
    } else if s[0] == '\n' {
      JoinPieces(s[1..]);
    } else {
      JoinPieces(s[1..]);
      var rest := Pieces(s[1..]);
      if |rest| >= 2 {
        assert Join(rest) == rest[0] + LineBreak + Join(rest[1..]);
        var p := [[s[0]] + rest[0]] + rest[1..];
        assert p[1..] == rest[1..];
      }
    }
  }

  /** Round trip: a text without carriage returns and without a final line break is
      rebuilt exactly by joining its lines. */
  lemma SplitJoinRoundTrip(s: string)
    requires '\r' !in s
    requires s == "" || s[|s| - 1] != '\n'
    ensures Join(Split(s)) == s
  {
    if '\n' !in s {
      SplitOfLine(s);
    } else {
      var k :| 0 <= k < |s| && s[k] == '\n';
      var last := LastBreak(s, k);
      assert s == s[..last] + LineBreak + s[last + 1..];
      PiecesLast(s[..last], s[last + 1..]);
      JoinPieces(s);
      var p := Pieces(s);
      assert p[|p| - 1] == s[last + 1..] != "";
      assert DropTrailingEmpty(p) == p;
    }
  }

  /** The position of the last line feed of `s` at or after `k`. */
  lemma {:induction false} LastBreak(s: string, k: nat) returns (last: nat)
    requires k < |s| && s[k] == '\n'
    ensures k <= last < |s| && s[last] == '\n' && '\n' !in s[last + 1..]
    decreases |s| - k
  {
    if '\n' in s[k + 1..] {
      var j :| 0 <= j < |s[k + 1..]| && s[k + 1..][j] == '\n';
      last := LastBreak(s, k + 1 + j);
    } else {
      last := k;
    }
  }

  /** Each line of the joined text occurs in it, so every delta joined into a mail body
      is contained in the body. */
  lemma {:induction false} JoinContains(lines: seq<string>, k: nat) returns (pre: string, post: string)
    requires k < |lines|
    ensures Join(lines) == pre + lines[k] + post
    decreases |lines|
  {
    if |lines| == 1 {
      pre, post := "", "";
    } else if k == 0 {
      pre, post := "", LineBreak + Join(lines[1..]);
    } else {
      var pre', post' := JoinContains(lines[1..], k - 1);
      pre, post := lines[0] + LineBreak + pre', post';
    }
  }

  /** Old content whose last line is the last current line yields no delta. */
  lemma ExtractAnchoredAtEnd(lastKnown: string, current: string)
    requires Split(lastKnown) != [] && Split(current) != []
    requires Split(lastKnown)[|Split(lastKnown)| - 1] == Split(current)[|Split(current)| - 1]
    ensures ExtractNewChanges(lastKnown, current) == ""
  {
    var lines := Split(current);
    assert LastIndexOf(lines, lines[|lines| - 1]) == |lines| - 1;
    assert NewLines(lastKnown, current) == [];
  }

  /** A non-empty suffix of split lines ends with their last line, and is blank at its end
      only when it is a single line. */
  lemma SuffixEnd(suffix: seq<string>, lines: seq<string>)
    requires IsSuffix(suffix, lines) && suffix != []
    requires lines == [""] || lines == [] || lines[|lines| - 1] != ""
    ensures lines != [] && suffix[|suffix| - 1] == lines[|lines| - 1]
    ensures |suffix| >= 2 ==> suffix[|suffix| - 1] != ""
  {
    var d := |lines| - |suffix|;
    assert suffix[|suffix| - 1] == lines[d + |suffix| - 1];
  }

  /** A non-empty set of new lines ends with the file's last line, which is blank only
      when it is the only new line; like every line, it holds no line feed. */
  lemma NewLinesEnd(lastKnown: string, current: string)
    requires NewLines(lastKnown, current) != []
    ensures var newLines := NewLines(lastKnown, current);
            var lines := Split(current);
            && lines != []
            && newLines[|newLines| - 1] == lines[|lines| - 1]
            && (|newLines| >= 2 ==> newLines[|newLines| - 1] != "")
            && '\n' !in newLines[|newLines| - 1]
  {
    SplitHasNoBreak(current);
    SuffixEnd(NewLines(lastKnown, current), Split(current));
  }

  /** The last line of a non-empty delta is the file's last line. */
  lemma DeltaAnchor(lastKnown: string, current: string)
    requires ExtractNewChanges(lastKnown, current) != ""
    ensures var anchors := Split(ExtractNewChanges(lastKnown, current));
            var lines := Split(current);
            anchors != [] && lines != [] && anchors[|anchors| - 1] == lines[|lines| - 1]
  {
    var newLines := NewLines(lastKnown, current);
    var lines := Split(current);
    var delta := Join(newLines);
    assert ExtractNewChanges(lastKnown, current) == delta;
    assert newLines != [];
    NewLinesEnd(lastKnown, current);
    SplitJoinLast(newLines);
    var anchors := Split(delta);
    assert anchors != [] && anchors[|anchors| - 1] == newLines[|newLines| - 1];
  }

  /** A stored delta anchors the next extraction: re-reading the same file content
      against the delta just computed from it yields no new delta. */
  lemma ExtractStable(lastKnown: string, current: string)
    requires ExtractNewChanges(lastKnown, current) != ""
    ensures ExtractNewChanges(ExtractNewChanges(lastKnown, current), current) == ""
  {
    DeltaAnchor(lastKnown, current);
    ExtractAnchoredAtEnd(ExtractNewChanges(lastKnown, current), current);
  }

  // ---------------------------------------------------------------------------
  // Java split edge cases and the worked example

  /** `"".split(...)` is `[""]`: there is no match, so the input itself is the only element. */
  lemma SplitEmpty()
    ensures Split("") == [""]
  {
  }

  /** A text made only of line breaks splits to no lines. */
  lemma SplitOnlyBreaks()
    ensures Split("\n") == []
    ensures Split("\r\n\n") == []
  {
    PiecesLine("", "");
    assert "" + LineBreak + "" == "\n";
    assert "\r\n\n"[2..] == "\n";
    assert Pieces("\r\n\n") == [""] + Pieces("\n");
  }

  lemma PiecesOfBlankLinesExample()
    ensures Pieces("a\n\nb\n\n") == ["a", "", "b", "", ""]
  {
    var p1 := Pieces("\n");
    assert p1 == ["", ""] by {
      PiecesLine("", "");
      assert "" + LineBreak + "" == "\n";
    }
    var p2 := Pieces("b\n\n");
    assert p2 == ["b"] + p1 by {
      PiecesLine("b", "\n");
      assert "b" + LineBreak + "\n" == "b\n\n";
    }
    var p3 := Pieces("\nb\n\n");
    assert p3 == [""] + p2 by {
      PiecesLine("", "b\n\n");
      assert "" + LineBreak + "b\n\n" == "\nb\n\n";
    }
    assert Pieces("a\n\nb\n\n") == ["a"] + p3 by {
      PiecesLine("a", "\nb\n\n");
      assert "a" + LineBreak + "\nb\n\n" == "a\n\nb\n\n";
    }
  }

  /** Blank lines inside the text are kept; blank lines at its end are dropped. */
  lemma SplitDropsOnlyTrailingBlanks()
    ensures Split("a\n\nb\n\n") == ["a", "", "b"]
  {
    PiecesOfBlankLinesExample();
    var p4 := ["a", "", "b", "", ""];
    assert DropTrailingEmpty(p4) == DropTrailingEmpty(["a", "", "b", ""]) by {
      assert p4[..4] == ["a", "", "b", ""];
    }
    assert DropTrailingEmpty(["a", "", "b", ""]) == ["a", "", "b"] by {
      assert ["a", "", "b", ""][..3] == ["a", "", "b"];
    }
  }

  /** Appending one non-blank line to a single line yields that line as the delta. */
  lemma ExtractOneAppendedLine(line: string, added: string)
    requires '\n' !in line && '\n' !in added
    requires line == "" || line[|line| - 1] != '\r'
    requires added != "" && added != line
    ensures ExtractNewChanges(line, line + LineBreak + added) == added
  {
    var current := line + LineBreak + added;
    SplitOfLine(line);
    PiecesLine(line, added);
    PiecesOfLine(added);
    var p := Pieces(current);
    assert p == [line, added];
    assert DropTrailingEmpty(p) == p;
    assert current != "" by {
      assert |current| >= 1;
    }
    assert Split(current) == [line, added];
    assert LastIndexOf([line, added], line) == 0;
    assert NewLines(line, current) == [added];
  }

  /** Old content "line1", new content "line1\nline2": the delta is "line2". */
  lemma ExtractExample(lastKnown: string, current: string)
    requires lastKnown == "line1" && current == "line1\nline2"
    ensures ExtractNewChanges(lastKnown, current) == "line2"
  {
    assert '\n' !in lastKnown && '\n' !in "line2";
    assert current == lastKnown + LineBreak + "line2";
    ExtractOneAppendedLine(lastKnown, "line2");
  }

  /** With no previous content the anchor is the empty string, so a blank line in the
      file hides everything before it: the delta of "a\n\nb" after "" is "b", not the file. */
  lemma ExtractFromEmptyAnchorsOnBlankLine()
    ensures ExtractNewChanges("", "a\n\nb") == "b"
  {
    assert Pieces("b") == ["b"] by {
      assert '\n' !in "b";
      PiecesOfLine("b");
    }
    PiecesLine("", "b");
    PiecesLine("a", "\nb");
    assert "a" + LineBreak + ("" + LineBreak + "b") == "a\n\nb";
    assert Pieces("a\n\nb") == ["a", "", "b"];
    assert Split("a\n\nb") == ["a", "", "b"];
    assert LastIndexOf(["a", "", "b"], "") == 1;
    assert NewLines("", "a\n\nb") == ["b"];
  }
}
