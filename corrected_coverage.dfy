/**
 * The computation as its code evidently intends it: `replace("b/", "")` only
 * makes sense on the new-side token of git's `diff --git a/<path> b/<path>`
 * line, so the current file is that path; and the lines of a hunk are the
 * ones right after its own header. The main theorem,
 * FixedRunCountsHunkLines, says that it counts exactly the "+" lines of the
 * hunks whose header matches, and among them exactly those whose new-file
 * line number is not covered for the file of the hunk.
 */
module CorrectedCoverage {
  import opened Wrappers
  import opened Strings
  import opened Coverage
  import opened HunkHeader
  import opened PatchCoverage
  import opened PatchCoverageProperties

  /** The `diff --git a/<path> b/<path>` line git writes for a change to `path`. */
  function GitHeaderText(path: string): string {
    Join(["diff", "--git", "a/" + path, "b/" + path], ' ')
  }

  /** The new-side path: the fourth token without its leading "b/"; None where there is no fourth token. */
  function FixedFilePath(line: string): Option<string> {
    var parts := Split(line, ' ');
    if |parts| < 4 then None else Some(ReplaceFirst(parts[3], "b/", ""))
  }

  /** Removing the first "b/" from "b/" + path removes the leading one. */
  lemma {:induction false} ReplaceLeading(path: string)
    ensures ReplaceFirst("b/" + path, "b/", "") == path
  {
    var s := "b/" + path;
    ReplaceFirstSpec(s, "b/", "");
    assert OccursAt(s, "b/", 0);
    assert s[..0] + "" + s[2..] == path;
  }

  /** The tokens of a git header line for a path without spaces. */
  lemma {:induction false} GitHeaderTokens(path: string)
    requires ' ' !in path
    ensures Split(GitHeaderText(path), ' ') == ["diff", "--git", "a/" + path, "b/" + path]
  {
    var parts := ["diff", "--git", "a/" + path, "b/" + path];
    assert forall i :: 0 <= i < |parts| ==> ' ' !in parts[i];
    SplitJoin(parts, ' ');
  }

  /** The corrected reading gives back the path of a git header line. */
  lemma {:induction false} FixedFilePathRoundTrip(path: string)
    requires ' ' !in path
    ensures FixedFilePath(GitHeaderText(path)) == Some(path)
  {
    GitHeaderTokens(path);
    ReplaceLeading(path);
  }

  /**
   * The reading as written takes the old-side token "a/<path>", which has no
   * "b/" to remove unless the path itself holds one.
   */
  lemma {:induction false} FilePathOfGitHeader(path: string)
    requires ' ' !in path
    ensures FilePath(GitHeaderText(path)) == Some(ReplaceFirst("a/" + path, "b/", ""))
  {
    GitHeaderTokens(path);
  }

  /** One iteration of the corrected outer loop. */
  function FixedStep(lines: seq<string>, i: nat, s: Scan, coveredLines: CoveredLines): Result<Scan, Fault>
    requires i < |lines|
  {
    var line := lines[i];
    if IsFileHeader(line) then
      match FixedFilePath(line)
      case None => Failure(MissingPathToken(i))
      case Some(path) => Success(Scan(Some(path), s.counts))
    else if IsHunkStart(line) then
      match Exec(line)
      case None => Success(s)
      case Some(newStart) =>
        Success(Scan(s.currentFile, s.counts.Plus(ScanHunk(lines, i + 1, newStart, coveredLines, LookupKey(s.currentFile)))))
    else Success(s)
  }

  /** The corrected outer loop over the first `n` lines. */
  function FixedRun(lines: seq<string>, n: nat, coveredLines: CoveredLines): (r: Result<Scan, Fault>)
    requires n <= |lines|
    ensures r.Success? ==> r.value.counts.uncovered <= r.value.counts.added
  {
    if n == 0 then Success(Start)
    else
      match FixedRun(lines, n - 1, coveredLines)
      case Failure(e) => Failure(e)
      case Success(s) => FixedStep(lines, n - 1, s, coveredLines)
  }

  /** The corrected outer loop over one more line is one more FixedStep. */
  lemma {:induction false} FixedRunNext(lines: seq<string>, i: nat, coveredLines: CoveredLines, s: Scan)
    requires i < |lines|
    requires FixedRun(lines, i, coveredLines) == Success(s)
    ensures FixedRun(lines, i + 1, coveredLines) == FixedStep(lines, i, s, coveredLines)
  {
  }

  /** The corrected computation on the diff text. */
  function FixedCalculate(diff: string, coverage: seq<FileCoverage>): (r: Result<Counts, Fault>)
    ensures r.Success? ==> r.value.uncovered <= r.value.added
  {
    var lines := Split(diff, '\n');
    Outcome(FixedRun(lines, |lines|, CoveredMap(coverage)))
  }

  /** The last boundary line before index `j`, if any. */
  function LastBoundaryBefore(lines: seq<string>, j: nat): (h: Option<nat>)
    requires j <= |lines|
    ensures h.Some? ==> h.value < j && IsBoundary(lines[h.value])
    ensures forall k :: (if h.Some? then h.value + 1 else 0) <= k < j ==> !IsBoundary(lines[k])
  {
    if j == 0 then None
    else if IsBoundary(lines[j - 1]) then Some(j - 1)
    else LastBoundaryBefore(lines, j - 1)
  }

  /** The matching hunk header whose hunk holds the line at index `j`, if any. */
  function Owner(lines: seq<string>, j: nat): (h: Option<nat>)
    requires j <= |lines|
    ensures h.Some? ==> h.value < j && OpensScan(lines, h.value)
  {
    match LastBoundaryBefore(lines, j)
    case None => None
    case Some(h) => if OpensScan(lines, h) then Some(h) else None
  }

  /** The file the last `diff --git` line before index `n` names, read the corrected way. */
  function FixedFileBefore(lines: seq<string>, n: nat): Option<string>
    requires n <= |lines|
  {
    match LastFileHeader(lines, n)
    case None => None
    case Some(h) => FixedFilePath(lines[h])
  }

  /** The "+" line at index `j` belongs to a hunk whose header is among the first `n` lines. */
  predicate CountedAdded(lines: seq<string>, n: nat, j: nat)
    requires j < |lines|
  {
    IsAdded(lines[j]) && Owner(lines, j).Some? && Owner(lines, j).value < n
  }

  /** The line at index `j`, in the hunk of the matching header at `h`, has a new-file line number not covered for that hunk's file. */
  predicate UncoveredInHunkOf(lines: seq<string>, h: nat, j: nat, coveredLines: CoveredLines)
    requires h < j <= |lines| && OpensScan(lines, h)
  {
    IsUncovered(coveredLines, LookupKey(FixedFileBefore(lines, h)), CursorAt(lines, h + 1, Exec(lines[h]).value, j))
  }

  /** Moreover its new-file line number is not covered for the file of its hunk. */
  predicate CountedUncovered(lines: seq<string>, n: nat, j: nat, coveredLines: CoveredLines)
    requires j < |lines|
  {
    CountedAdded(lines, n, j) && UncoveredInHunkOf(lines, Owner(lines, j).value, j, coveredLines)
  }

  function IntendedAdded(lines: seq<string>, n: nat): set<nat> {
    set j: nat | j < |lines| && CountedAdded(lines, n, j)
  }

  function IntendedUncovered(lines: seq<string>, n: nat, coveredLines: CoveredLines): set<nat> {
    set j: nat | j < |lines| && CountedUncovered(lines, n, j, coveredLines)
  }

  /** A "+" line is neither a hunk header nor a file header. */
  lemma {:induction false} AddedIsNotBoundary(line: string)
    requires IsAdded(line)
    ensures !IsBoundary(line)
  {
    assert line[0] == line[..1][0] == '+';
    assert !IsHunkStart(line) by {
      if |line| >= 2 { assert line[..2][0] == line[0]; }
    }
    assert !IsFileHeader(line) by {
      if |line| >= 10 { assert line[..10][0] == line[0]; }
    }
  }

  /** A boundary line followed only by non-boundary lines is the last boundary before them. */
  lemma {:induction false} LastBoundaryBeforeIs(lines: seq<string>, h: nat, j: nat)
    requires h < j <= |lines| && IsBoundary(lines[h])
    requires forall k :: h < k < j ==> !IsBoundary(lines[k])
    ensures LastBoundaryBefore(lines, j) == Some(h)
    decreases j - h
  {
    if j - 1 > h {
      LastBoundaryBeforeIs(lines, h, j - 1);
    }
  }

  /** A "+" line belongs to the hunk of a matching header exactly when it lies between the header and the hunk's end. */
  lemma {:induction false} OwnerInHunk(lines: seq<string>, h: nat, j: nat)
    requires h < |lines| && OpensScan(lines, h)
    requires j < |lines| && IsAdded(lines[j])
    ensures Owner(lines, j) == Some(h) <==> h < j < HunkEnd(lines, h + 1)
  {
    var e := HunkEnd(lines, h + 1);
    AddedIsNotBoundary(lines[j]);
    if h < j < e {
      LastBoundaryBeforeIs(lines, h, j);
    }
    if Owner(lines, j) == Some(h) {
      assert !(e < j);
      assert j != e;
    }
  }

  /** Whether the "+" line at index `j` is counted once the matching header at `h` is read. */
  lemma {:induction false} HunkShareAddedAt(lines: seq<string>, h: nat, j: nat)
    requires h < |lines| && OpensScan(lines, h) && j < |lines|
    ensures CountedAdded(lines, h + 1, j)
            <==> CountedAdded(lines, h, j) || (h + 1 <= j < HunkEnd(lines, h + 1) && IsAdded(lines[j]))
    ensures CountedAdded(lines, h, j) ==> !(h + 1 <= j < HunkEnd(lines, h + 1))
  {
    if IsAdded(lines[j]) {
      OwnerInHunk(lines, h, j);
    }
  }

  /** A "+" line of the hunk of the header at `h` is uncovered as its scan finds it. */
  lemma {:induction false} HunkShareInside(lines: seq<string>, h: nat, j: nat, coveredLines: CoveredLines)
    requires h < |lines| && OpensScan(lines, h) && j < |lines|
    requires h + 1 <= j < HunkEnd(lines, h + 1) && IsAdded(lines[j])
    ensures CountedUncovered(lines, h + 1, j, coveredLines)
            <==> IsUncovered(coveredLines, LookupKey(FixedFileBefore(lines, h)), CursorAt(lines, h + 1, Exec(lines[h]).value, j))
  {
    OwnerInHunk(lines, h, j);
  }

  /** A line outside that hunk is uncovered after the header at `h` exactly when it was before. */
  lemma {:induction false} HunkShareOutside(lines: seq<string>, h: nat, j: nat, coveredLines: CoveredLines)
    requires h < |lines| && OpensScan(lines, h) && j < |lines|
    requires !(h + 1 <= j < HunkEnd(lines, h + 1))
    ensures CountedUncovered(lines, h + 1, j, coveredLines) <==> CountedUncovered(lines, h, j, coveredLines)
  {
    HunkShareAddedAt(lines, h, j);
  }

  /** The "+" lines the scan of the header at `h` finds are the new members of IntendedAdded. */
  lemma {:induction false} HunkShareAdded(lines: seq<string>, h: nat, coveredLines: CoveredLines)
    requires h < |lines| && OpensScan(lines, h)
    ensures IntendedAdded(lines, h + 1) == IntendedAdded(lines, h) + AddedIn(lines, h + 1, HunkEnd(lines, h + 1))
    ensures IntendedAdded(lines, h) * AddedIn(lines, h + 1, HunkEnd(lines, h + 1)) == {}
  {
    forall j: nat | j < |lines|
      ensures CountedAdded(lines, h + 1, j)
              <==> CountedAdded(lines, h, j) || (h + 1 <= j < HunkEnd(lines, h + 1) && IsAdded(lines[j]))
      ensures CountedAdded(lines, h, j) ==> !(h + 1 <= j < HunkEnd(lines, h + 1))
    {
      HunkShareAddedAt(lines, h, j);
    }
  }

  /** The uncovered lines the scan of the header at `h` finds are the new members of IntendedUncovered. */
  lemma {:induction false} HunkShareUncovered(lines: seq<string>, h: nat, coveredLines: CoveredLines)
    requires h < |lines| && OpensScan(lines, h)
    ensures IntendedUncovered(lines, h + 1, coveredLines)
            == IntendedUncovered(lines, h, coveredLines)
               + UncoveredIn(lines, h + 1, Exec(lines[h]).value, h + 1, HunkEnd(lines, h + 1),
                             coveredLines, LookupKey(FixedFileBefore(lines, h)))
    ensures IntendedUncovered(lines, h, coveredLines)
            * UncoveredIn(lines, h + 1, Exec(lines[h]).value, h + 1, HunkEnd(lines, h + 1),
                          coveredLines, LookupKey(FixedFileBefore(lines, h))) == {}
  {
    forall j: nat | j < |lines|
      ensures CountedAdded(lines, h, j) ==> !(h + 1 <= j < HunkEnd(lines, h + 1))
      ensures h + 1 <= j < HunkEnd(lines, h + 1) && IsAdded(lines[j]) ==>
                (CountedUncovered(lines, h + 1, j, coveredLines)
                 <==> IsUncovered(coveredLines, LookupKey(FixedFileBefore(lines, h)), CursorAt(lines, h + 1, Exec(lines[h]).value, j)))
      ensures !(h + 1 <= j < HunkEnd(lines, h + 1)) ==>
                (CountedUncovered(lines, h + 1, j, coveredLines) <==> CountedUncovered(lines, h, j, coveredLines))
    {
      HunkShareAddedAt(lines, h, j);
      if h + 1 <= j < HunkEnd(lines, h + 1) && IsAdded(lines[j]) {
        HunkShareInside(lines, h, j, coveredLines);
      }
      if !(h + 1 <= j < HunkEnd(lines, h + 1)) {
        HunkShareOutside(lines, h, j, coveredLines);
      }
    }
  }

  /** The size of a set grown by a disjoint part. */
  lemma {:induction false} DisjointGrowth(a0: set<nat>, a1: set<nat>, b: set<nat>)
    requires a1 == a0 + b && a0 * b == {}
    ensures |a1| == |a0| + |b|
  {
  }

  /** The header at `h` adds as many intended "+" lines as its scan finds. */
  lemma {:induction false} AddedGrowth(lines: seq<string>, h: nat, coveredLines: CoveredLines)
    requires h < |lines| && OpensScan(lines, h)
    ensures |IntendedAdded(lines, h + 1)| == |IntendedAdded(lines, h)| + |AddedIn(lines, h + 1, HunkEnd(lines, h + 1))|
  {
    HunkShareAdded(lines, h, coveredLines);
    DisjointGrowth(IntendedAdded(lines, h), IntendedAdded(lines, h + 1), AddedIn(lines, h + 1, HunkEnd(lines, h + 1)));
  }

  /** The header at `h` adds as many intended uncovered lines as its scan finds. */
  lemma {:induction false} UncoveredGrowth(lines: seq<string>, h: nat, coveredLines: CoveredLines)
    requires h < |lines| && OpensScan(lines, h)
    ensures |IntendedUncovered(lines, h + 1, coveredLines)|
            == |IntendedUncovered(lines, h, coveredLines)|
               + |UncoveredIn(lines, h + 1, Exec(lines[h]).value, h + 1, HunkEnd(lines, h + 1),
                              coveredLines, LookupKey(FixedFileBefore(lines, h)))|
  {
    HunkShareUncovered(lines, h, coveredLines);
    DisjointGrowth(IntendedUncovered(lines, h, coveredLines), IntendedUncovered(lines, h + 1, coveredLines),
                   UncoveredIn(lines, h + 1, Exec(lines[h]).value, h + 1, HunkEnd(lines, h + 1),
                               coveredLines, LookupKey(FixedFileBefore(lines, h))));
  }

  /** Outside a matching header, the intended sets do not grow. */
  lemma {:induction false} NoShare(lines: seq<string>, h: nat, coveredLines: CoveredLines)
    requires h < |lines| && !OpensScan(lines, h)
    ensures IntendedAdded(lines, h + 1) == IntendedAdded(lines, h)
    ensures IntendedUncovered(lines, h + 1, coveredLines) == IntendedUncovered(lines, h, coveredLines)
  {
  }

  /** The file before index `h + 1` given the one before `h`. */
  lemma {:induction false} FixedFileBeforeNext(lines: seq<string>, h: nat)
    requires h < |lines|
    ensures FixedFileBefore(lines, h + 1)
            == if IsFileHeader(lines[h]) then FixedFilePath(lines[h]) else FixedFileBefore(lines, h)
  {
  }

  /** The scan of a matching header at `h` takes the intended counts of the first `h` lines to those of the first `h + 1`. */
  lemma {:induction false} CountsAfterHunk(lines: seq<string>, h: nat, coveredLines: CoveredLines)
    requires h < |lines| && OpensScan(lines, h)
    ensures Counts(|IntendedAdded(lines, h)|, |IntendedUncovered(lines, h, coveredLines)|)
              .Plus(ScanHunk(lines, h + 1, Exec(lines[h]).value, coveredLines, LookupKey(FixedFileBefore(lines, h))))
            == Counts(|IntendedAdded(lines, h + 1)|, |IntendedUncovered(lines, h + 1, coveredLines)|)
  {
    ScanHunkClosedForm(lines, h + 1, Exec(lines[h]).value, coveredLines, LookupKey(FixedFileBefore(lines, h)));
    AddedGrowth(lines, h, coveredLines);
    UncoveredGrowth(lines, h, coveredLines);
  }

  /** A corrected Step that does not throw: the file it sets and the counts it adds. */
  lemma {:induction false} FixedStepEffect(lines: seq<string>, i: nat, s: Scan, coveredLines: CoveredLines)
    requires i < |lines| && FixedStep(lines, i, s, coveredLines).Success?
    ensures FixedStep(lines, i, s, coveredLines).value.currentFile
            == if IsFileHeader(lines[i]) then FixedFilePath(lines[i]) else s.currentFile
    ensures FixedStep(lines, i, s, coveredLines).value.counts
            == if OpensScan(lines, i)
               then s.counts.Plus(ScanHunk(lines, i + 1, Exec(lines[i]).value, coveredLines, LookupKey(s.currentFile)))
               else s.counts
  {
    if !IsFileHeader(lines[i]) && IsHunkStart(lines[i]) {
      match Exec(lines[i])
      case None =>
      case Some(_) =>
    }
  }

  /** Once the corrected loop has thrown, it stays thrown. */
  lemma {:induction false} FixedRunSuccessPrefix(lines: seq<string>, n: nat, coveredLines: CoveredLines)
    requires 0 < n <= |lines| && FixedRun(lines, n, coveredLines).Success?
    ensures FixedRun(lines, n - 1, coveredLines).Success?
    ensures FixedRun(lines, n, coveredLines) == FixedStep(lines, n - 1, FixedRun(lines, n - 1, coveredLines).value, coveredLines)
  {
  }

  /**
   * The corrected computation counts exactly the intended lines: the "+"
   * lines of the hunks opened by the first `n` lines, and those of them
   * whose new-file line number is not covered for the hunk's file; its
   * current file is the one the last `diff --git` line names.
   */
  lemma {:induction false} FixedRunCountsHunkLines(lines: seq<string>, n: nat, coveredLines: CoveredLines)
    requires n <= |lines| && FixedRun(lines, n, coveredLines).Success?
    ensures FixedRun(lines, n, coveredLines).value.currentFile == FixedFileBefore(lines, n)
    ensures FixedRun(lines, n, coveredLines).value.counts
            == Counts(|IntendedAdded(lines, n)|, |IntendedUncovered(lines, n, coveredLines)|)
  {
    if n == 0 {
      assert IntendedAdded(lines, 0) == {};
      assert IntendedUncovered(lines, 0, coveredLines) == {};
    } else {
      var h := n - 1;
      FixedRunSuccessPrefix(lines, n, coveredLines);
      FixedRunCountsHunkLines(lines, h, coveredLines);
      var s := FixedRun(lines, h, coveredLines).value;
      FixedStepEffect(lines, h, s, coveredLines);
      FixedFileBeforeNext(lines, h);
      if OpensScan(lines, h) {
        CountsAfterHunk(lines, h, coveredLines);
      } else {
        NoShare(lines, h, coveredLines);
      }
    }
  }
}
