/**
 * Two places where `calculatePatchCoverage` defeats its own evident intent,
 * each shown on every diff of a given shape and then on a concrete one: the
 * computation as written gives one pair of counts and the corrected one
 * (CorrectedCoverage) the intended pair.
 */
module Findings {
  import opened Wrappers
  import opened Strings
  import opened Coverage
  import opened HunkHeader
  import opened PatchCoverage
  import opened PatchCoverageProperties
  import opened CorrectedCoverage

  /** A git header line is a `diff --git` line and not a hunk header. */
  lemma {:induction false} GitHeaderShape(path: string)
    ensures IsFileHeader(GitHeaderText(path)) && !IsHunkStart(GitHeaderText(path))
  {
    var g := GitHeaderText(path);
    var tail := Join(["--git", "a/" + path, "b/" + path], ' ');
    assert ["diff", "--git", "a/" + path, "b/" + path][1..] == ["--git", "a/" + path, "b/" + path];
    assert g == "diff" + [' '] + tail;
    assert ["--git", "a/" + path, "b/" + path][1..] == ["a/" + path, "b/" + path];
    assert tail == "--git" + [' '] + Join(["a/" + path, "b/" + path], ' ');
    assert g[..10] == "diff --git";
    assert g[0] == 'd';
    assert !IsHunkStart(g) by {
      assert g[..2][0] == g[0];
    }
  }

  /** Appending keeps the first two characters. */
  lemma {:induction false} AppendKeepsStart(a: string, b: string)
    requires |a| >= 2
    ensures |a + b| >= 2 && (a + b)[0] == a[0] && (a + b)[1] == a[1]
  {
  }

  /** A hunk header git writes begins with "@@". */
  lemma {:induction false} HunkHeaderStart(oldStart: nat, oldLength: Option<nat>, newStart: nat, newLength: Option<nat>)
    ensures var h := HeaderText(oldStart, oldLength, newStart, newLength);
            |h| >= 2 && h[0] == '@' && h[1] == '@'
  {
    var p1 := "@@ -" + Decimal(oldStart);
    var p2 := p1 + LengthText(oldLength);
    var p3 := p2 + " +";
    var p4 := p3 + Decimal(newStart);
    var p5 := p4 + LengthText(newLength);
    assert HeaderText(oldStart, oldLength, newStart, newLength) == p5 + " @@";
    AppendKeepsStart("@@ -", Decimal(oldStart));
    AppendKeepsStart(p1, LengthText(oldLength));
    AppendKeepsStart(p2, " +");
    AppendKeepsStart(p3, Decimal(newStart));
    AppendKeepsStart(p4, LengthText(newLength));
    AppendKeepsStart(p5, " @@");
  }

  /** A hunk header git writes is a hunk header, not a `diff --git` line, and matches with its new start. */
  lemma {:induction false} HunkHeaderShape(oldStart: nat, oldLength: Option<nat>, newStart: nat, newLength: Option<nat>)
    ensures var h := HeaderText(oldStart, oldLength, newStart, newLength);
            IsHunkStart(h) && !IsFileHeader(h) && Exec(h) == Some(newStart)
  {
    var h := HeaderText(oldStart, oldLength, newStart, newLength);
    HeaderRoundTrip(oldStart, oldLength, newStart, newLength, "");
    assert h + "" == h;
    HunkHeaderStart(oldStart, oldLength, newStart, newLength);
    assert !IsFileHeader(h) by {
      if |h| >= 10 { assert h[..10][0] == h[0]; }
    }
  }

  /** A git header line and a hunk header line are never equal. */
  lemma {:induction false} GitHeaderIsNotHunkHeader(path: string, oldStart: nat, oldLength: Option<nat>, newStart: nat, newLength: Option<nat>)
    ensures GitHeaderText(path) != HeaderText(oldStart, oldLength, newStart, newLength)
  {
    GitHeaderShape(path);
    HunkHeaderShape(oldStart, oldLength, newStart, newLength);
  }

  /** When the first two lines differ, the first copy of the second line is the second line. */
  lemma {:induction false} FirstIndexIsSecond(lines: seq<string>)
    requires |lines| >= 2 && lines[0] != lines[1]
    ensures FirstIndex(lines, lines[1]) == 1
  {
    assert IndexFrom(lines, lines[1], 1) == 1;
    assert IndexFrom(lines, lines[1], 0) == 1;
  }

  /** Removing the first "b/" from "a/<path>" changes nothing when the path holds no "b/". */
  lemma {:induction false} OldSideTokenKept(path: string)
    requires forall j: nat :: !OccursAt(path, "b/", j)
    ensures ReplaceFirst("a/" + path, "b/", "") == "a/" + path
  {
    var s := "a/" + path;
    forall j: nat ensures !OccursAt(s, "b/", j) {
      if j + 2 <= |s| {
        if j >= 2 {
          assert s[j..j + 2] == path[j - 2..j];
          assert !OccursAt(path, "b/", j - 2);
        } else {
          assert s[j..j + 2][0] == s[j] != 'b';
        }
      }
    }
    ReplaceFirstSpec(s, "b/", "");
  }

  /**
   * As written, the file of a git header line for a path holding no "b/" is
   * the old-side token "a/<path>", so its lines are looked up under a key
   * that names no file of the change.
   */
  lemma {:induction false} FilePathIsOldSide(path: string)
    requires ' ' !in path
    requires forall j: nat :: !OccursAt(path, "b/", j)
    ensures FilePath(GitHeaderText(path)) == Some("a/" + path)
  {
    FilePathOfGitHeader(path);
    OldSideTokenKept(path);
  }

  /** Both loops on a git header line: as written the file becomes the rewritten old-side token, corrected the path. */
  lemma {:induction false} StepOnGitHeader(lines: seq<string>, i: nat, s: Scan, cov: CoveredLines, path: string)
    requires i < |lines| && lines[i] == GitHeaderText(path) && ' ' !in path
    ensures Step(lines, i, s, cov) == Success(Scan(Some(ReplaceFirst("a/" + path, "b/", "")), s.counts))
    ensures FixedStep(lines, i, s, cov) == Success(Scan(Some(path), s.counts))
  {
    GitHeaderShape(path);
    FilePathOfGitHeader(path);
    FixedFilePathRoundTrip(path);
  }

  /** As written, the loop on a hunk header line the pattern matches adds the scan that starts after its first copy. */
  lemma {:induction false} StepOnHunkLine(lines: seq<string>, i: nat, s: Scan, cov: CoveredLines, newStart: nat)
    requires i < |lines| && IsHunkStart(lines[i]) && !IsFileHeader(lines[i]) && Exec(lines[i]) == Some(newStart)
    ensures Step(lines, i, s, cov)
            == Success(Scan(s.currentFile, s.counts.Plus(ScanHunk(lines, FirstIndex(lines, lines[i]) + 1, newStart, cov, LookupKey(s.currentFile)))))
  {
  }

  /** Corrected, the loop on a hunk header line the pattern matches adds the scan that starts after it. */
  lemma {:induction false} FixedStepOnHunkLine(lines: seq<string>, i: nat, s: Scan, cov: CoveredLines, newStart: nat)
    requires i < |lines| && IsHunkStart(lines[i]) && !IsFileHeader(lines[i]) && Exec(lines[i]) == Some(newStart)
    ensures FixedStep(lines, i, s, cov)
            == Success(Scan(s.currentFile, s.counts.Plus(ScanHunk(lines, i + 1, newStart, cov, LookupKey(s.currentFile)))))
  {
  }

  /** Both loops pass over a line that is neither a file header nor a hunk header. */
  lemma {:induction false} StepOnPlainLine(lines: seq<string>, i: nat, s: Scan, cov: CoveredLines)
    requires i < |lines| && !IsFileHeader(lines[i]) && !IsHunkStart(lines[i])
    ensures Step(lines, i, s, cov) == Success(s)
    ensures FixedStep(lines, i, s, cov) == Success(s)
  {
  }

  /** As written, the outer loop over a git header line sets the file to the rewritten old-side token. */
  lemma {:induction false} RunOnGitHeader(lines: seq<string>, i: nat, cov: CoveredLines, s: Scan, path: string)
    requires i < |lines| && lines[i] == GitHeaderText(path) && ' ' !in path
    requires Run(lines, i, cov) == Success(s)
    ensures Run(lines, i + 1, cov) == Success(Scan(Some(ReplaceFirst("a/" + path, "b/", "")), s.counts))
  {
    StepOnGitHeader(lines, i, s, cov, path);
    RunNext(lines, i, cov, s);
  }

  /** Corrected, the outer loop over a git header line sets the file to the path. */
  lemma {:induction false} FixedRunOnGitHeader(lines: seq<string>, i: nat, cov: CoveredLines, s: Scan, path: string)
    requires i < |lines| && lines[i] == GitHeaderText(path) && ' ' !in path
    requires FixedRun(lines, i, cov) == Success(s)
    ensures FixedRun(lines, i + 1, cov) == Success(Scan(Some(path), s.counts))
  {
    StepOnGitHeader(lines, i, s, cov, path);
    FixedRunNext(lines, i, cov, s);
  }

  /** As written, the outer loop over a hunk header line adds the scan that starts after its first copy. */
  lemma {:induction false} RunOnHunkLine(lines: seq<string>, i: nat, cov: CoveredLines, s: Scan, newStart: nat)
    requires i < |lines| && IsHunkStart(lines[i]) && !IsFileHeader(lines[i]) && Exec(lines[i]) == Some(newStart)
    requires Run(lines, i, cov) == Success(s)
    ensures Run(lines, i + 1, cov)
            == Success(Scan(s.currentFile, s.counts.Plus(ScanHunk(lines, FirstIndex(lines, lines[i]) + 1, newStart, cov, LookupKey(s.currentFile)))))
  {
    StepOnHunkLine(lines, i, s, cov, newStart);
    RunNext(lines, i, cov, s);
  }

  /** Corrected, the outer loop over a hunk header line adds the scan that starts after it. */
  lemma {:induction false} FixedRunOnHunkLine(lines: seq<string>, i: nat, cov: CoveredLines, s: Scan, newStart: nat)
    requires i < |lines| && IsHunkStart(lines[i]) && !IsFileHeader(lines[i]) && Exec(lines[i]) == Some(newStart)
    requires FixedRun(lines, i, cov) == Success(s)
    ensures FixedRun(lines, i + 1, cov)
            == Success(Scan(s.currentFile, s.counts.Plus(ScanHunk(lines, i + 1, newStart, cov, LookupKey(s.currentFile)))))
  {
    FixedStepOnHunkLine(lines, i, s, cov, newStart);
    FixedRunNext(lines, i, cov, s);
  }

  /** As written, the outer loop over a line that is no boundary changes nothing. */
  lemma {:induction false} RunOnPlainLine(lines: seq<string>, i: nat, cov: CoveredLines, s: Scan)
    requires i < |lines| && !IsFileHeader(lines[i]) && !IsHunkStart(lines[i])
    requires Run(lines, i, cov) == Success(s)
    ensures Run(lines, i + 1, cov) == Success(s)
  {
    StepOnPlainLine(lines, i, s, cov);
    RunNext(lines, i, cov, s);
  }

  /** Corrected, the outer loop over a line that is no boundary changes nothing. */
  lemma {:induction false} FixedRunOnPlainLine(lines: seq<string>, i: nat, cov: CoveredLines, s: Scan)
    requires i < |lines| && !IsFileHeader(lines[i]) && !IsHunkStart(lines[i])
    requires FixedRun(lines, i, cov) == Success(s)
    ensures FixedRun(lines, i + 1, cov) == Success(s)
  {
    StepOnPlainLine(lines, i, s, cov);
    FixedRunNext(lines, i, cov, s);
  }

  /** The hunk scan stops at a boundary line. */
  lemma {:induction false} ScanStopsAtBoundary(lines: seq<string>, j: nat, cursor: nat, cov: CoveredLines, key: string)
    requires j < |lines| && IsBoundary(lines[j])
    ensures ScanHunk(lines, j, cursor, cov, key) == Counts(0, 0)
  {
  }

  /** An added line then a context line that ends the lines: one added line, at the cursor. */
  lemma {:induction false} AddedContextAdded(lines: seq<string>, j: nat, cursor: nat, cov: CoveredLines, key: string)
    requires j + 2 == |lines| && IsAdded(lines[j]) && IsContext(lines[j + 1])
    ensures ScanHunk(lines, j, cursor, cov, key).added == 1
  {
    assert ScanHunk(lines, j + 2, cursor + 2, cov, key) == Counts(0, 0);
    ScanContextLine(lines, j + 1, cursor + 1, cov, key);
    ScanAddedLine(lines, j, cursor, cov, key);
  }

  /** The same two lines: uncovered exactly when the cursor line is. */
  lemma {:induction false} AddedContextUncovered(lines: seq<string>, j: nat, cursor: nat, cov: CoveredLines, key: string)
    requires j + 2 == |lines| && IsAdded(lines[j]) && IsContext(lines[j + 1])
    ensures ScanHunk(lines, j, cursor, cov, key).uncovered == if IsUncovered(cov, key, cursor) then 1 else 0
  {
    assert ScanHunk(lines, j + 2, cursor + 2, cov, key) == Counts(0, 0);
    ScanContextLine(lines, j + 1, cursor + 1, cov, key);
    ScanAddedLine(lines, j, cursor, cov, key);
  }

  /**
   * A context line, an added line and a context line that end the lines:
   * one added line, the one after the cursor's, uncovered exactly when that
   * line is.
   */
  lemma {:induction false} ContextAddedContext(lines: seq<string>, j: nat, cursor: nat, cov: CoveredLines, key: string)
    requires j + 3 == |lines| && IsContext(lines[j]) && IsAdded(lines[j + 1]) && IsContext(lines[j + 2])
    ensures ScanHunk(lines, j, cursor, cov, key).added == 1
    ensures ScanHunk(lines, j, cursor, cov, key).uncovered == if IsUncovered(cov, key, cursor + 1) then 1 else 0
  {
    AddedContextAdded(lines, j + 1, cursor + 1, cov, key);
    AddedContextUncovered(lines, j + 1, cursor + 1, cov, key);
    ScanContextLine(lines, j, cursor, cov, key);
  }

  /**
   * The hunk of the one-file diff, with the line after `newStart` covered
   * for `path`, looked up under any other key: its added line is uncovered.
   */
  lemma {:induction false} OneFileHunkOtherKey(lines: seq<string>, key: string, path: string, cov: CoveredLines, newStart: nat)
    requires |lines| == 5 && IsContext(lines[2]) && IsAdded(lines[3]) && IsContext(lines[4])
    requires cov == map[path := {newStart + 1}] && key != path
    ensures ScanHunk(lines, 2, newStart, cov, key) == Counts(1, 1)
  {
    assert IsUncovered(cov, key, newStart + 1);
    ContextAddedContext(lines, 2, newStart, cov, key);
  }

  /** The same hunk looked up under the path: its added line is covered. */
  lemma {:induction false} OneFileHunkOwnKey(lines: seq<string>, path: string, cov: CoveredLines, newStart: nat)
    requires |lines| == 5 && IsContext(lines[2]) && IsAdded(lines[3]) && IsContext(lines[4])
    requires cov == map[path := {newStart + 1}]
    ensures ScanHunk(lines, 2, newStart, cov, path) == Counts(1, 0)
  {
    assert !IsUncovered(cov, path, newStart + 1);
    ContextAddedContext(lines, 2, newStart, cov, path);
  }

  /**
   * As written, the outer loop from a file opened at index 0, over a hunk
   * header met for the first time and three lines that are no boundary: the
   * scan of that hunk is added to the counts.
   */
  lemma {:induction false} RunOneHunkFile(lines: seq<string>, cov: CoveredLines, file: string, before: Counts, newStart: nat, hunk: Counts)
    requires |lines| == 5 && Run(lines, 1, cov) == Success(Scan(Some(file), before))
    requires IsHunkStart(lines[1]) && !IsFileHeader(lines[1]) && Exec(lines[1]) == Some(newStart) && FirstIndex(lines, lines[1]) == 1
    requires !IsFileHeader(lines[2]) && !IsHunkStart(lines[2]) && !IsFileHeader(lines[3]) && !IsHunkStart(lines[3])
    requires !IsFileHeader(lines[4]) && !IsHunkStart(lines[4])
    requires ScanHunk(lines, 2, newStart, cov, file) == hunk
    ensures Run(lines, 5, cov) == Success(Scan(Some(file), before.Plus(hunk)))
  {
    var s := Scan(Some(file), before.Plus(hunk));
    RunOnHunkLine(lines, 1, cov, Scan(Some(file), before), newStart);
    RunOnPlainLine(lines, 2, cov, s);
    RunOnPlainLine(lines, 3, cov, s);
    RunOnPlainLine(lines, 4, cov, s);
  }

  /** The same lines, corrected. */
  lemma {:induction false} FixedRunOneHunkFile(lines: seq<string>, cov: CoveredLines, file: string, before: Counts, newStart: nat, hunk: Counts)
    requires |lines| == 5 && FixedRun(lines, 1, cov) == Success(Scan(Some(file), before))
    requires IsHunkStart(lines[1]) && !IsFileHeader(lines[1]) && Exec(lines[1]) == Some(newStart)
    requires !IsFileHeader(lines[2]) && !IsHunkStart(lines[2]) && !IsFileHeader(lines[3]) && !IsHunkStart(lines[3])
    requires !IsFileHeader(lines[4]) && !IsHunkStart(lines[4])
    requires ScanHunk(lines, 2, newStart, cov, file) == hunk
    ensures FixedRun(lines, 5, cov) == Success(Scan(Some(file), before.Plus(hunk)))
  {
    var s := Scan(Some(file), before.Plus(hunk));
    FixedRunOnHunkLine(lines, 1, cov, Scan(Some(file), before), newStart);
    FixedRunOnPlainLine(lines, 2, cov, s);
    FixedRunOnPlainLine(lines, 3, cov, s);
    FixedRunOnPlainLine(lines, 4, cov, s);
  }

  /**
   * As written, the one-file diff once its file header has opened the file
   * under a key other than the path the report covers: the added line is
   * looked up under that key.
   */
  lemma {:induction false} OneFileRun(lines: seq<string>, key: string, path: string, cov: CoveredLines, newStart: nat)
    requires |lines| == 5 && Run(lines, 1, cov) == Success(Scan(Some(key), Counts(0, 0)))
    requires IsHunkStart(lines[1]) && !IsFileHeader(lines[1]) && Exec(lines[1]) == Some(newStart) && FirstIndex(lines, lines[1]) == 1
    requires IsContext(lines[2]) && IsAdded(lines[3]) && IsContext(lines[4])
    requires cov == map[path := {newStart + 1}] && key != path
    ensures Run(lines, 5, cov) == Success(Scan(Some(key), Counts(1, 1)))
  {
    OneFileHunkOtherKey(lines, key, path, cov, newStart);
    PlainLineShape(lines[2]);
    PlainLineShape(lines[3]);
    PlainLineShape(lines[4]);
    RunOneHunkFile(lines, cov, key, Counts(0, 0), newStart, Counts(1, 1));
  }

  /** Corrected, the one-file diff once its file header has opened the file under its path. */
  lemma {:induction false} FixedOneFileRun(lines: seq<string>, path: string, cov: CoveredLines, newStart: nat)
    requires |lines| == 5 && FixedRun(lines, 1, cov) == Success(Scan(Some(path), Counts(0, 0)))
    requires IsHunkStart(lines[1]) && !IsFileHeader(lines[1]) && Exec(lines[1]) == Some(newStart)
    requires IsContext(lines[2]) && IsAdded(lines[3]) && IsContext(lines[4])
    requires cov == map[path := {newStart + 1}]
    ensures FixedRun(lines, 5, cov) == Success(Scan(Some(path), Counts(1, 0)))
  {
    OneFileHunkOwnKey(lines, path, cov, newStart);
    PlainLineShape(lines[2]);
    PlainLineShape(lines[3]);
    PlainLineShape(lines[4]);
    FixedRunOneHunkFile(lines, cov, path, Counts(0, 0), newStart, Counts(1, 0));
  }

  /**
   * For every path without spaces or "b/" and every hunk header: in a
   * one-file diff whose hunk adds the line after the header's new start, with
   * that line covered, the line is counted uncovered as written, because it
   * is looked up under "a/<path>".
   */
  lemma {:induction false} OldSidePathAsWritten(lines: seq<string>, path: string, cov: CoveredLines,
                                                oldStart: nat, oldLength: Option<nat>, newStart: nat, newLength: Option<nat>)
    requires ' ' !in path && forall j: nat :: !OccursAt(path, "b/", j)
    requires |lines| == 5 && lines[0] == GitHeaderText(path) && lines[1] == HeaderText(oldStart, oldLength, newStart, newLength)
    requires IsContext(lines[2]) && IsAdded(lines[3]) && IsContext(lines[4])
    requires cov == map[path := {newStart + 1}]
    ensures Run(lines, 5, cov) == Success(Scan(Some("a/" + path), Counts(1, 1)))
  {
    OldSideTokenKept(path);
    RunOnGitHeader(lines, 0, cov, Start, path);
    HunkHeaderShape(oldStart, oldLength, newStart, newLength);
    GitHeaderIsNotHunkHeader(path, oldStart, oldLength, newStart, newLength);
    FirstIndexIsSecond(lines);
    assert |"a/" + path| != |path|;
    OneFileRun(lines, "a/" + path, path, cov, newStart);
  }

  /** The same diff, corrected: the line is looked up under the path and counted covered. */
  lemma {:induction false} OldSidePathCorrected(lines: seq<string>, path: string, cov: CoveredLines,
                                                oldStart: nat, oldLength: Option<nat>, newStart: nat, newLength: Option<nat>)
    requires ' ' !in path
    requires |lines| == 5 && lines[0] == GitHeaderText(path) && lines[1] == HeaderText(oldStart, oldLength, newStart, newLength)
    requires IsContext(lines[2]) && IsAdded(lines[3]) && IsContext(lines[4])
    requires cov == map[path := {newStart + 1}]
    ensures FixedRun(lines, 5, cov) == Success(Scan(Some(path), Counts(1, 0)))
  {
    FixedRunOnGitHeader(lines, 0, cov, Start, path);
    HunkHeaderShape(oldStart, oldLength, newStart, newLength);
    FixedOneFileRun(lines, path, cov, newStart);
  }

  /** The one-file diff of `a.txt` whose hunk adds line 2, and a report that covers that line. */
  lemma {:induction false} OldSidePathCounterexample()
    ensures var lines := [GitHeaderText("a.txt"), HeaderText(1, Some(2), 1, Some(3)), " line1", "+line2", " line3"];
            var cov := map["a.txt" := {2}];
            Run(lines, 5, cov) == Success(Scan(Some("a/a.txt"), Counts(1, 1)))
            && FixedRun(lines, 5, cov) == Success(Scan(Some("a.txt"), Counts(1, 0)))
  {
    var lines := [GitHeaderText("a.txt"), HeaderText(1, Some(2), 1, Some(3)), " line1", "+line2", " line3"];
    var cov := map["a.txt" := {2}];
    forall j: nat ensures !OccursAt("a.txt", "b/", j) {
      if j + 2 <= 5 { assert "a.txt"[j..j + 2][0] == "a.txt"[j] != 'b'; }
    }
    assert "a/" + "a.txt" == "a/a.txt";
    OldSidePathAsWritten(lines, "a.txt", cov, 1, Some(2), 1, Some(3));
    OldSidePathCorrected(lines, "a.txt", cov, 1, Some(2), 1, Some(3));
  }

  /** With no coverage, one added line before a boundary line. */
  lemma {:induction false} OneAddedBeforeBoundary(lines: seq<string>, j: nat, cursor: nat, key: string)
    requires j + 1 < |lines| && IsAdded(lines[j]) && IsBoundary(lines[j + 1])
    ensures ScanHunk(lines, j, cursor, map[], key) == Counts(1, 1)
  {
    ScanStopsAtBoundary(lines, j + 1, cursor + 1, map[], key);
    ScanAddedLine(lines, j, cursor, map[], key);
  }

  /** With no coverage, two added lines that end the lines. */
  lemma {:induction false} TwoAddedAtEnd(lines: seq<string>, j: nat, cursor: nat, key: string)
    requires j + 2 == |lines| && IsAdded(lines[j]) && IsAdded(lines[j + 1])
    ensures ScanHunk(lines, j, cursor, map[], key) == Counts(2, 2)
  {
    assert ScanHunk(lines, j + 2, cursor + 2, map[], key) == Counts(0, 0);
    ScanAddedLine(lines, j + 1, cursor + 1, map[], key);
    ScanAddedLine(lines, j, cursor, map[], key);
  }

  /**
   * As written, the outer loop from a file opened at index 0, over a hunk
   * header met for the first time and one line that is no boundary.
   */
  lemma {:induction false} RunFirstHunk(lines: seq<string>, cov: CoveredLines, file: string, before: Counts, newStart: nat, hunk: Counts)
    requires |lines| >= 3 && Run(lines, 1, cov) == Success(Scan(Some(file), before))
    requires IsHunkStart(lines[1]) && !IsFileHeader(lines[1]) && Exec(lines[1]) == Some(newStart) && FirstIndex(lines, lines[1]) == 1
    requires !IsFileHeader(lines[2]) && !IsHunkStart(lines[2])
    requires ScanHunk(lines, 2, newStart, cov, file) == hunk
    ensures Run(lines, 3, cov) == Success(Scan(Some(file), before.Plus(hunk)))
  {
    RunOnHunkLine(lines, 1, cov, Scan(Some(file), before), newStart);
    RunOnPlainLine(lines, 2, cov, Scan(Some(file), before.Plus(hunk)));
  }

  /**
   * As written, the outer loop from index 4, a hunk header, over two lines
   * that are no boundary: the scan it adds starts after the header's first
   * copy.
   */
  lemma {:induction false} RunSecondHunk(lines: seq<string>, cov: CoveredLines, file: string, before: Counts, newStart: nat, hunk: Counts)
    requires |lines| == 7 && Run(lines, 4, cov) == Success(Scan(Some(file), before))
    requires IsHunkStart(lines[4]) && !IsFileHeader(lines[4]) && Exec(lines[4]) == Some(newStart)
    requires !IsFileHeader(lines[5]) && !IsHunkStart(lines[5]) && !IsFileHeader(lines[6]) && !IsHunkStart(lines[6])
    requires ScanHunk(lines, FirstIndex(lines, lines[4]) + 1, newStart, cov, file) == hunk
    ensures Run(lines, 7, cov) == Success(Scan(Some(file), before.Plus(hunk)))
  {
    var s := Scan(Some(file), before.Plus(hunk));
    RunOnHunkLine(lines, 4, cov, Scan(Some(file), before), newStart);
    RunOnPlainLine(lines, 5, cov, s);
    RunOnPlainLine(lines, 6, cov, s);
  }

  /** Corrected, the outer loop over the first file's hunk header and one line that is no boundary. */
  lemma {:induction false} FixedRunFirstHunk(lines: seq<string>, cov: CoveredLines, file: string, before: Counts, newStart: nat, hunk: Counts)
    requires |lines| >= 3 && FixedRun(lines, 1, cov) == Success(Scan(Some(file), before))
    requires IsHunkStart(lines[1]) && !IsFileHeader(lines[1]) && Exec(lines[1]) == Some(newStart)
    requires !IsFileHeader(lines[2]) && !IsHunkStart(lines[2])
    requires ScanHunk(lines, 2, newStart, cov, file) == hunk
    ensures FixedRun(lines, 3, cov) == Success(Scan(Some(file), before.Plus(hunk)))
  {
    FixedRunOnHunkLine(lines, 1, cov, Scan(Some(file), before), newStart);
    FixedRunOnPlainLine(lines, 2, cov, Scan(Some(file), before.Plus(hunk)));
  }

  /** Corrected, the outer loop from index 4, a hunk header, over two lines that are no boundary: the scan starts after it. */
  lemma {:induction false} FixedRunSecondHunk(lines: seq<string>, cov: CoveredLines, file: string, before: Counts, newStart: nat, hunk: Counts)
    requires |lines| == 7 && FixedRun(lines, 4, cov) == Success(Scan(Some(file), before))
    requires IsHunkStart(lines[4]) && !IsFileHeader(lines[4]) && Exec(lines[4]) == Some(newStart)
    requires !IsFileHeader(lines[5]) && !IsHunkStart(lines[5]) && !IsFileHeader(lines[6]) && !IsHunkStart(lines[6])
    requires ScanHunk(lines, 5, newStart, cov, file) == hunk
    ensures FixedRun(lines, 7, cov) == Success(Scan(Some(file), before.Plus(hunk)))
  {
    var s := Scan(Some(file), before.Plus(hunk));
    FixedRunOnHunkLine(lines, 4, cov, Scan(Some(file), before), newStart);
    FixedRunOnPlainLine(lines, 5, cov, s);
    FixedRunOnPlainLine(lines, 6, cov, s);
  }

  /** As written, the first file of the two-file diff, from its file header to the second file's. */
  lemma {:induction false} FirstFileRun(lines: seq<string>, file: string, newStart: nat)
    requires |lines| == 7 && Run(lines, 1, map[]) == Success(Scan(Some(file), Counts(0, 0)))
    requires IsHunkStart(lines[1]) && !IsFileHeader(lines[1]) && Exec(lines[1]) == Some(newStart) && lines[0] != lines[1]
    requires IsAdded(lines[2]) && IsFileHeader(lines[3])
    ensures Run(lines, 3, map[]) == Success(Scan(Some(file), Counts(1, 1)))
  {
    FirstIndexIsSecond(lines);
    OneAddedBeforeBoundary(lines, 2, newStart, file);
    PlainLineShape(lines[2]);
    RunFirstHunk(lines, map[], file, Counts(0, 0), newStart, Counts(1, 1));
  }

  /**
   * As written, the second file of the two-file diff, once its file header
   * is read: its hunk header equals the first file's, so the scan starts
   * after the first one and counts the first file's added line again.
   */
  lemma {:induction false} SecondFileRun(lines: seq<string>, file: string, newStart: nat)
    requires |lines| == 7 && Run(lines, 4, map[]) == Success(Scan(Some(file), Counts(1, 1)))
    requires IsHunkStart(lines[1]) && !IsFileHeader(lines[1]) && Exec(lines[1]) == Some(newStart) && lines[0] != lines[1]
    requires IsAdded(lines[2]) && IsFileHeader(lines[3]) && lines[4] == lines[1]
    requires IsAdded(lines[5]) && IsAdded(lines[6])
    ensures Run(lines, 7, map[]) == Success(Scan(Some(file), Counts(2, 2)))
  {
    FirstIndexIsSecond(lines);
    assert FirstIndex(lines, lines[4]) == 1;
    OneAddedBeforeBoundary(lines, 2, newStart, file);
    PlainLineShape(lines[5]);
    PlainLineShape(lines[6]);
    RunSecondHunk(lines, map[], file, Counts(1, 1), newStart, Counts(1, 1));
  }

  /** Corrected, the hunk of the first file of the two-file diff, once its file header is read. */
  lemma {:induction false} FixedFirstFileHunk(lines: seq<string>, file: string, newStart: nat)
    requires |lines| == 7 && FixedRun(lines, 1, map[]) == Success(Scan(Some(file), Counts(0, 0)))
    requires IsHunkStart(lines[1]) && !IsFileHeader(lines[1]) && Exec(lines[1]) == Some(newStart)
    requires IsAdded(lines[2]) && IsFileHeader(lines[3])
    ensures FixedRun(lines, 3, map[]) == Success(Scan(Some(file), Counts(1, 1)))
  {
    OneAddedBeforeBoundary(lines, 2, newStart, file);
    PlainLineShape(lines[2]);
    FixedRunFirstHunk(lines, map[], file, Counts(0, 0), newStart, Counts(1, 1));
  }

  /** Corrected, the first file of the two-file diff, from its file header to the second file's. */
  lemma {:induction false} FixedFirstFileRun(lines: seq<string>, file: string, newStart: nat)
    requires |lines| == 7 && lines[0] == GitHeaderText(file) && ' ' !in file
    requires IsHunkStart(lines[1]) && !IsFileHeader(lines[1]) && Exec(lines[1]) == Some(newStart)
    requires IsAdded(lines[2]) && IsFileHeader(lines[3])
    ensures FixedRun(lines, 3, map[]) == Success(Scan(Some(file), Counts(1, 1)))
  {
    FixedRunOnGitHeader(lines, 0, map[], Start, file);
    FixedFirstFileHunk(lines, file, newStart);
  }

  /** Corrected, the second file of the two-file diff, from its file header: its hunk is scanned from its own header. */
  lemma {:induction false} FixedSecondFileRun(lines: seq<string>, previous: string, file: string, newStart: nat)
    requires |lines| == 7 && FixedRun(lines, 3, map[]) == Success(Scan(Some(previous), Counts(1, 1)))
    requires lines[3] == GitHeaderText(file) && ' ' !in file
    requires IsHunkStart(lines[4]) && !IsFileHeader(lines[4]) && Exec(lines[4]) == Some(newStart)
    requires IsAdded(lines[5]) && IsAdded(lines[6])
    ensures FixedRun(lines, 7, map[]) == Success(Scan(Some(file), Counts(3, 3)))
  {
    FixedRunOnGitHeader(lines, 3, map[], Scan(Some(previous), Counts(1, 1)), file);
    TwoAddedAtEnd(lines, 5, newStart, file);
    PlainLineShape(lines[5]);
    PlainLineShape(lines[6]);
    FixedRunSecondHunk(lines, map[], file, Counts(1, 1), newStart, Counts(2, 2));
  }

  /**
   * For every two paths without spaces, every hunk header and no coverage:
   * two files whose hunks have the same header, the first adding one line
   * and the second two. As written, the hunk of the second file is never
   * scanned, because `indexOf` finds the equal header of the first, whose
   * hunk is counted twice.
   */
  lemma {:induction false} DuplicateHeaderAsWritten(lines: seq<string>, first: string, second: string,
                                                    oldStart: nat, oldLength: Option<nat>, newStart: nat, newLength: Option<nat>)
    requires ' ' !in first && ' ' !in second
    requires |lines| == 7 && lines[0] == GitHeaderText(first) && lines[1] == HeaderText(oldStart, oldLength, newStart, newLength)
    requires IsAdded(lines[2]) && lines[3] == GitHeaderText(second) && lines[4] == lines[1]
    requires IsAdded(lines[5]) && IsAdded(lines[6])
    ensures Outcome(Run(lines, 7, map[])) == Success(Counts(2, 2))
  {
    var a1 := ReplaceFirst("a/" + first, "b/", "");
    var a2 := ReplaceFirst("a/" + second, "b/", "");
    HunkHeaderShape(oldStart, oldLength, newStart, newLength);
    GitHeaderIsNotHunkHeader(first, oldStart, oldLength, newStart, newLength);
    GitHeaderShape(second);
    RunOnGitHeader(lines, 0, map[], Start, first);
    FirstFileRun(lines, a1, newStart);
    RunOnGitHeader(lines, 3, map[], Scan(Some(a1), Counts(1, 1)), second);
    SecondFileRun(lines, a2, newStart);
  }

  /** The same diff, corrected: each hunk is scanned from its own header, and the three added lines count once each. */
  lemma {:induction false} DuplicateHeaderCorrected(lines: seq<string>, first: string, second: string,
                                                    oldStart: nat, oldLength: Option<nat>, newStart: nat, newLength: Option<nat>)
    requires ' ' !in first && ' ' !in second
    requires |lines| == 7 && lines[0] == GitHeaderText(first) && lines[1] == HeaderText(oldStart, oldLength, newStart, newLength)
    requires IsAdded(lines[2]) && lines[3] == GitHeaderText(second) && lines[4] == lines[1]
    requires IsAdded(lines[5]) && IsAdded(lines[6])
    ensures Outcome(FixedRun(lines, 7, map[])) == Success(Counts(3, 3))
  {
    HunkHeaderShape(oldStart, oldLength, newStart, newLength);
    GitHeaderShape(second);
    FixedFirstFileRun(lines, first, newStart);
    FixedSecondFileRun(lines, first, second, newStart);
  }

  /** The two-file diff of `x` and `y`, both hunks headed `@@ -1 +1 @@`, with no coverage. */
  lemma {:induction false} DuplicateHeaderCounterexample()
    ensures var lines := [GitHeaderText("x"), HeaderText(1, None, 1, None), "+b",
                          GitHeaderText("y"), HeaderText(1, None, 1, None), "+p", "+q"];
            Outcome(Run(lines, 7, map[])) == Success(Counts(2, 2))
            && Outcome(FixedRun(lines, 7, map[])) == Success(Counts(3, 3))
  {
    var lines := [GitHeaderText("x"), HeaderText(1, None, 1, None), "+b",
                  GitHeaderText("y"), HeaderText(1, None, 1, None), "+p", "+q"];
    DuplicateHeaderAsWritten(lines, "x", "y", 1, None, 1, None);
    DuplicateHeaderCorrected(lines, "x", "y", 1, None, 1, None);
  }
}
