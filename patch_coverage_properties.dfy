/**
 * What the as-written computation promises: the cursor and the counts of one
 * hunk scan in closed form, when the outer loop throws, which file the
 * counts are attributed to, and how the counts react to more coverage.
 */
module PatchCoverageProperties {
  import opened Wrappers
  import opened Strings
  import opened Coverage
  import opened HunkHeader
  import opened PatchCoverage

  /** A context line of a hunk: it starts with a space. */
  predicate IsContext(line: string) { |line| >= 1 && line[0] == ' ' }

  /** The indices in [from, to) whose line does not start with "-". */
  function NotRemovedIn(lines: seq<string>, from: nat, to: nat): set<nat>
    requires from <= to <= |lines|
  {
    set k: nat | from <= k < to && !IsRemoved(lines[k])
  }

  /** The indices in [from, to) whose line starts with "+". */
  function AddedIn(lines: seq<string>, from: nat, to: nat): set<nat>
    requires from <= to <= |lines|
  {
    set k: nat | from <= k < to && IsAdded(lines[k])
  }

  /**
   * The indices in [from, to) whose line starts with "+" and whose line
   * number, as counted by the scan that began at `start` with `newStart`, is
   * not in the covered set of `key`.
   */
  function UncoveredIn(lines: seq<string>, start: nat, newStart: nat, from: nat, to: nat,
                       coveredLines: CoveredLines, key: string): set<nat>
    requires start <= from <= to <= |lines|
  {
    set k: nat | from <= k < to && IsAdded(lines[k])
                 && IsUncovered(coveredLines, key, CursorAt(lines, start, newStart, k))
  }

  /** The cursor is the new-file start plus the number of scanned lines that do not start with "-". */
  lemma {:induction false} CursorCountsNonRemoved(lines: seq<string>, from: nat, newStart: nat, j: nat)
    requires from <= j <= |lines|
    ensures CursorAt(lines, from, newStart, j) == newStart + |NotRemovedIn(lines, from, j)|
    decreases j - from
  {
    if j == from {
      assert NotRemovedIn(lines, from, j) == {};
    } else {
      CursorCountsNonRemoved(lines, from, newStart, j - 1);
      if IsRemoved(lines[j - 1]) {
        assert NotRemovedIn(lines, from, j) == NotRemovedIn(lines, from, j - 1);
      } else {
        assert NotRemovedIn(lines, from, j) == NotRemovedIn(lines, from, j - 1) + {j - 1};
      }
    }
  }

  /** Peeling the first index off AddedIn. */
  lemma {:induction false} AddedInStep(lines: seq<string>, j: nat, e: nat)
    requires j < e <= |lines|
    ensures AddedIn(lines, j, e) == AddedIn(lines, j + 1, e) + (if IsAdded(lines[j]) then {j} else {})
    ensures j !in AddedIn(lines, j + 1, e)
  {
  }

  /** Peeling the first index off UncoveredIn. */
  lemma {:induction false} UncoveredInStep(lines: seq<string>, start: nat, newStart: nat, j: nat, e: nat,
                                           coveredLines: CoveredLines, key: string)
    requires start <= j < e <= |lines|
    ensures UncoveredIn(lines, start, newStart, j, e, coveredLines, key)
            == UncoveredIn(lines, start, newStart, j + 1, e, coveredLines, key)
               + (if IsAdded(lines[j]) && IsUncovered(coveredLines, key, CursorAt(lines, start, newStart, j))
                  then {j} else {})
    ensures j !in UncoveredIn(lines, start, newStart, j + 1, e, coveredLines, key)
  {
  }

  /** Adding at most one new element to a set adds at most one to its size. */
  lemma {:induction false} SizeWithOne(rest: set<nat>, x: nat, present: bool)
    requires x !in rest
    ensures |rest + (if present then {x} else {})| == |rest| + (if present then 1 else 0)
  {
    if present {
      assert rest + {x} == rest + {x};
    } else {
      assert rest + {} == rest;
    }
  }

  /** The size of AddedIn with its first index peeled off. */
  lemma {:induction false} AddedInSizeStep(lines: seq<string>, j: nat, e: nat)
    requires j < e <= |lines|
    ensures |AddedIn(lines, j, e)| == (if IsAdded(lines[j]) then 1 else 0) + |AddedIn(lines, j + 1, e)|
  {
    AddedInStep(lines, j, e);
    SizeWithOne(AddedIn(lines, j + 1, e), j, IsAdded(lines[j]));
  }

  /** The size of UncoveredIn with its first index peeled off. */
  lemma {:induction false} UncoveredInSizeStep(lines: seq<string>, start: nat, newStart: nat, j: nat, e: nat,
                                               coveredLines: CoveredLines, key: string)
    requires start <= j < e <= |lines|
    ensures |UncoveredIn(lines, start, newStart, j, e, coveredLines, key)|
            == (if IsAdded(lines[j]) && IsUncovered(coveredLines, key, CursorAt(lines, start, newStart, j)) then 1 else 0)
               + |UncoveredIn(lines, start, newStart, j + 1, e, coveredLines, key)|
  {
    UncoveredInStep(lines, start, newStart, j, e, coveredLines, key);
    SizeWithOne(UncoveredIn(lines, start, newStart, j + 1, e, coveredLines, key), j,
                IsAdded(lines[j]) && IsUncovered(coveredLines, key, CursorAt(lines, start, newStart, j)));
  }

  /** One line of a hunk scan: the added count. */
  lemma {:induction false} ScanHunkUnfoldAdded(lines: seq<string>, j: nat, cursor: nat, next: nat,
                                               coveredLines: CoveredLines, key: string)
    requires j < |lines| && !IsBoundary(lines[j])
    requires next == if IsRemoved(lines[j]) then cursor else cursor + 1
    ensures ScanHunk(lines, j, cursor, coveredLines, key).added
            == (if IsAdded(lines[j]) then 1 else 0) + ScanHunk(lines, j + 1, next, coveredLines, key).added
  {
  }

  /** One line of a hunk scan: the uncovered count. */
  lemma {:induction false} ScanHunkUnfoldUncovered(lines: seq<string>, j: nat, cursor: nat, next: nat,
                                                   coveredLines: CoveredLines, key: string)
    requires j < |lines| && !IsBoundary(lines[j])
    requires next == if IsRemoved(lines[j]) then cursor else cursor + 1
    ensures ScanHunk(lines, j, cursor, coveredLines, key).uncovered
            == (if IsAdded(lines[j]) && IsUncovered(coveredLines, key, cursor) then 1 else 0)
               + ScanHunk(lines, j + 1, next, coveredLines, key).uncovered
  {
  }

  /** A scan that starts where the hunk ends adds nothing. */
  lemma {:induction false} ScanHunkAtEnd(lines: seq<string>, from: nat, cursor: nat, coveredLines: CoveredLines, key: string)
    requires from <= |lines|
    ensures ScanHunk(lines, HunkEnd(lines, from), cursor, coveredLines, key) == Counts(0, 0)
  {
  }

  /** The added count of a hunk scan from an index inside the hunk. */
  lemma {:induction false} ScanHunkFromAdded(lines: seq<string>, start: nat, newStart: nat, j: nat,
                                             coveredLines: CoveredLines, key: string)
    requires start <= |lines| && start <= j <= HunkEnd(lines, start)
    ensures ScanHunk(lines, j, CursorAt(lines, start, newStart, j), coveredLines, key).added
            == |AddedIn(lines, j, HunkEnd(lines, start))|
    decreases HunkEnd(lines, start) - j
  {
    var e := HunkEnd(lines, start);
    if j == e {
      ScanHunkAtEnd(lines, start, CursorAt(lines, start, newStart, j), coveredLines, key);
      assert AddedIn(lines, j, e) == {};
    } else {
      var c := CursorAt(lines, start, newStart, j);
      var next := CursorAt(lines, start, newStart, j + 1);
      assert next == if IsRemoved(lines[j]) then c else c + 1;
      ScanHunkFromAdded(lines, start, newStart, j + 1, coveredLines, key);
      ScanHunkUnfoldAdded(lines, j, c, next, coveredLines, key);
      AddedInSizeStep(lines, j, e);
    }
  }

  /** The uncovered count of a hunk scan from an index inside the hunk. */
  lemma {:induction false} ScanHunkFromUncovered(lines: seq<string>, start: nat, newStart: nat, j: nat,
                                                 coveredLines: CoveredLines, key: string)
    requires start <= |lines| && start <= j <= HunkEnd(lines, start)
    ensures ScanHunk(lines, j, CursorAt(lines, start, newStart, j), coveredLines, key).uncovered
            == |UncoveredIn(lines, start, newStart, j, HunkEnd(lines, start), coveredLines, key)|
    decreases HunkEnd(lines, start) - j
  {
    var e := HunkEnd(lines, start);
    if j == e {
      ScanHunkAtEnd(lines, start, CursorAt(lines, start, newStart, j), coveredLines, key);
      assert UncoveredIn(lines, start, newStart, j, e, coveredLines, key) == {};
    } else {
      var c := CursorAt(lines, start, newStart, j);
      var next := CursorAt(lines, start, newStart, j + 1);
      assert next == if IsRemoved(lines[j]) then c else c + 1;
      ScanHunkFromUncovered(lines, start, newStart, j + 1, coveredLines, key);
      ScanHunkUnfoldUncovered(lines, j, c, next, coveredLines, key);
      UncoveredInSizeStep(lines, start, newStart, j, e, coveredLines, key);
    }
  }

  /**
   * A hunk scan counts exactly the "+" lines before the first boundary line,
   * and among them exactly those whose line number is not covered for `key`.
   */
  lemma {:induction false} ScanHunkClosedForm(lines: seq<string>, start: nat, newStart: nat,
                                              coveredLines: CoveredLines, key: string)
    requires start <= |lines|
    ensures ScanHunk(lines, start, newStart, coveredLines, key)
            == Counts(|AddedIn(lines, start, HunkEnd(lines, start))|,
                      |UncoveredIn(lines, start, newStart, start, HunkEnd(lines, start), coveredLines, key)|)
  {
    ScanHunkFromAdded(lines, start, newStart, start, coveredLines, key);
    ScanHunkFromUncovered(lines, start, newStart, start, coveredLines, key);
  }

  /** Lines after the boundary have no say: a scan depends only on the lines up to its end. */
  lemma {:induction false} ScanHunkLocal(lines: seq<string>, other: seq<string>, j: nat, cursor: nat,
                                         coveredLines: CoveredLines, key: string)
    requires j <= |lines| && HunkEnd(lines, j) <= |other|
    requires other[..HunkEnd(lines, j)] == lines[..HunkEnd(lines, j)]
    requires HunkEnd(lines, j) < |other| ==> IsBoundary(other[HunkEnd(lines, j)])
    ensures ScanHunk(other, j, cursor, coveredLines, key) == ScanHunk(lines, j, cursor, coveredLines, key)
    decreases HunkEnd(lines, j) - j
  {
    var e := HunkEnd(lines, j);
    if j < e {
      assert other[j] == other[..e][j] && lines[j] == lines[..e][j];
      ScanHunkLocal(lines, other, j + 1, if IsRemoved(lines[j]) then cursor else cursor + 1, coveredLines, key);
    }
  }

  /** `coveredLines` covers at least what `fewer` covers: every file of `fewer`, with at least its lines. */
  predicate CoversAtLeast(coveredLines: CoveredLines, fewer: CoveredLines) {
    forall key :: key in fewer ==> key in coveredLines && fewer[key] <= coveredLines[key]
  }

  /** More coverage never changes what is added and never adds an uncovered line. */
  lemma {:induction false} ScanHunkMonotone(lines: seq<string>, j: nat, cursor: nat,
                                            fewer: CoveredLines, more: CoveredLines, key: string)
    requires j <= |lines|
    requires CoversAtLeast(more, fewer)
    ensures ScanHunk(lines, j, cursor, more, key).added == ScanHunk(lines, j, cursor, fewer, key).added
    ensures ScanHunk(lines, j, cursor, more, key).uncovered <= ScanHunk(lines, j, cursor, fewer, key).uncovered
    decreases |lines| - j
  {
    if j < |lines| && !IsBoundary(lines[j]) {
      ScanHunkMonotone(lines, j + 1, if IsRemoved(lines[j]) then cursor else cursor + 1, fewer, more, key);
    }
  }

  /** The `diff --git` line at index `i` is too short for `parts[2]`. */
  predicate BadHeader(lines: seq<string>, i: nat)
    requires i < |lines|
  {
    IsFileHeader(lines[i]) && FilePath(lines[i]).None?
  }

  /** `parts[2]` is missing exactly when the line has fewer than two spaces. */
  lemma {:induction false} FilePathMissingIff(line: string)
    ensures FilePath(line).None? <==> multiset(line)[' '] < 2
  {
    SplitSpec(line, ' ');
  }

  /** The first too-short `diff --git` line before index `n`, if any. */
  function FirstBadHeader(lines: seq<string>, n: nat): (b: Option<nat>)
    requires n <= |lines|
    ensures b.Some? ==> b.value < n && BadHeader(lines, b.value)
    ensures forall k :: 0 <= k < (if b.Some? then b.value else n) ==> !BadHeader(lines, k)
  {
    if n == 0 then None
    else
      match FirstBadHeader(lines, n - 1)
      case Some(b) => Some(b)
      case None => if BadHeader(lines, n - 1) then Some(n - 1) else None
  }

  /** A matching hunk header at index `i`. */
  predicate OpensScan(lines: seq<string>, i: nat)
    requires i < |lines|
  {
    !IsFileHeader(lines[i]) && IsHunkStart(lines[i]) && Exec(lines[i]).Some?
  }

  /** A Step throws exactly on a too-short `diff --git` line, and reports its index. */
  lemma {:induction false} StepFault(lines: seq<string>, i: nat, s: Scan, coveredLines: CoveredLines)
    requires i < |lines|
    ensures Step(lines, i, s, coveredLines).Failure? <==> BadHeader(lines, i)
    ensures Step(lines, i, s, coveredLines).Failure? ==> Step(lines, i, s, coveredLines).error == MissingPathToken(i)
  {
    if !IsFileHeader(lines[i]) && IsHunkStart(lines[i]) {
      match Exec(lines[i])
      case None =>
      case Some(_) =>
    }
  }

  /** A Step that does not throw counts exactly what the scan it opens counts, if it opens one. */
  lemma {:induction false} StepCounts(lines: seq<string>, i: nat, s: Scan, coveredLines: CoveredLines)
    requires i < |lines|
    requires Step(lines, i, s, coveredLines).Success?
    ensures Step(lines, i, s, coveredLines).value.counts
            == if OpensScan(lines, i)
               then s.counts.Plus(ScanHunk(lines, FirstIndex(lines, lines[i]) + 1, Exec(lines[i]).value,
                                           coveredLines, LookupKey(s.currentFile)))
               else s.counts
  {
    if !IsFileHeader(lines[i]) && IsHunkStart(lines[i]) {
      match Exec(lines[i])
      case None =>
      case Some(_) =>
    }
  }

  /** A Step that does not throw keeps the current file, except on a `diff --git` line. */
  lemma {:induction false} StepFile(lines: seq<string>, i: nat, s: Scan, coveredLines: CoveredLines)
    requires i < |lines|
    requires Step(lines, i, s, coveredLines).Success?
    ensures Step(lines, i, s, coveredLines).value.currentFile
            == if IsFileHeader(lines[i]) then FilePath(lines[i]) else s.currentFile
  {
    if !IsFileHeader(lines[i]) && IsHunkStart(lines[i]) {
      match Exec(lines[i])
      case None =>
      case Some(_) =>
    }
  }

  /**
   * The outer loop throws exactly when one of the lines it visits is a
   * `diff --git` line too short for `parts[2]`, and it reports the first.
   */
  lemma {:induction false} RunFaultIffBadHeader(lines: seq<string>, n: nat, coveredLines: CoveredLines)
    requires n <= |lines|
    ensures Run(lines, n, coveredLines).Failure? <==> FirstBadHeader(lines, n).Some?
    ensures Run(lines, n, coveredLines).Failure? ==>
              Run(lines, n, coveredLines).error == MissingPathToken(FirstBadHeader(lines, n).value)
  {
    if n > 0 {
      RunFaultIffBadHeader(lines, n - 1, coveredLines);
      if Run(lines, n - 1, coveredLines).Success? {
        var s := Run(lines, n - 1, coveredLines).value;
        RunNext(lines, n - 1, coveredLines, s);
        StepFault(lines, n - 1, s, coveredLines);
      }
    }
  }

  /** The last `diff --git` line before index `n`, if any. */
  function LastFileHeader(lines: seq<string>, n: nat): (h: Option<nat>)
    requires n <= |lines|
    ensures h.Some? ==> h.value < n && IsFileHeader(lines[h.value])
    ensures forall k :: (if h.Some? then h.value + 1 else 0) <= k < n ==> !IsFileHeader(lines[k])
  {
    if n == 0 then None
    else if IsFileHeader(lines[n - 1]) then Some(n - 1)
    else LastFileHeader(lines, n - 1)
  }

  /** The file the last `diff --git` line before index `n` names, as the source reads it. */
  function FileBefore(lines: seq<string>, n: nat): Option<string>
    requires n <= |lines|
  {
    match LastFileHeader(lines, n)
    case None => None
    case Some(h) => FilePath(lines[h])
  }

  /**
   * Until it throws, the outer loop's current file is the one the last
   * `diff --git` line so far names (`null` before the first).
   */
  lemma {:induction false} RunCurrentFileIsLastHeader(lines: seq<string>, n: nat, coveredLines: CoveredLines)
    requires n <= |lines|
    requires Run(lines, n, coveredLines).Success?
    ensures Run(lines, n, coveredLines).value.currentFile == FileBefore(lines, n)
  {
    if n > 0 {
      RunCurrentFileIsLastHeader(lines, n - 1, coveredLines);
    }
  }

  /** The relation more coverage keeps between two states of the outer loop. */
  predicate AtMostAsUncovered(more: Scan, fewer: Scan) {
    more.currentFile == fewer.currentFile && more.counts.added == fewer.counts.added
    && more.counts.uncovered <= fewer.counts.uncovered
  }

  /** One Step under more coverage throws alike and keeps AtMostAsUncovered. */
  lemma {:induction false} StepMonotone(lines: seq<string>, i: nat, m: Scan, f: Scan, fewer: CoveredLines, more: CoveredLines)
    requires i < |lines|
    requires CoversAtLeast(more, fewer) && AtMostAsUncovered(m, f)
    ensures Step(lines, i, m, more).Failure? <==> Step(lines, i, f, fewer).Failure?
    ensures Step(lines, i, m, more).Failure? ==> Step(lines, i, m, more) == Step(lines, i, f, fewer)
    ensures Step(lines, i, m, more).Success? ==>
              AtMostAsUncovered(Step(lines, i, m, more).value, Step(lines, i, f, fewer).value)
  {
    StepFault(lines, i, m, more);
    StepFault(lines, i, f, fewer);
    if !BadHeader(lines, i) {
      StepCounts(lines, i, m, more);
      StepCounts(lines, i, f, fewer);
      StepFile(lines, i, m, more);
      StepFile(lines, i, f, fewer);
      if OpensScan(lines, i) {
        var line := lines[i];
        ScanHunkMonotone(lines, FirstIndex(lines, line) + 1, Exec(line).value, fewer, more, LookupKey(m.currentFile));
      }
    }
  }

  /**
   * The counts of the outer loop react to coverage monotonically: more
   * coverage throws in the same places, keeps the current file and the
   * added count, and never raises the uncovered count.
   */
  lemma {:induction false} RunCoverageMonotone(lines: seq<string>, n: nat, fewer: CoveredLines, more: CoveredLines)
    requires n <= |lines|
    requires CoversAtLeast(more, fewer)
    ensures Run(lines, n, more).Failure? <==> Run(lines, n, fewer).Failure?
    ensures Run(lines, n, more).Failure? ==> Run(lines, n, more) == Run(lines, n, fewer)
    ensures Run(lines, n, more).Success? ==> AtMostAsUncovered(Run(lines, n, more).value, Run(lines, n, fewer).value)
  {
    if n > 0 {
      RunCoverageMonotone(lines, n - 1, fewer, more);
      if Run(lines, n - 1, more).Success? {
        var m := Run(lines, n - 1, more).value;
        var f := Run(lines, n - 1, fewer).value;
        RunNext(lines, n - 1, more, m);
        RunNext(lines, n - 1, fewer, f);
        StepMonotone(lines, n - 1, m, f, fewer, more);
      }
    }
  }

  /*
   * Turning a context line into a "+" line. Such an edit moves no line
   * number and no boundary, so every scan that passes the line counts one
   * more added line and, when the line's number is not covered, one more
   * uncovered line; every other scan is unchanged.
   */

  /** A scan depends only on the lines from its start onwards. */
  lemma {:induction false} ScanHunkSameFrom(lines: seq<string>, other: seq<string>, j: nat, cursor: nat,
                                            coveredLines: CoveredLines, key: string)
    requires j <= |lines| == |other|
    requires forall m :: j <= m < |lines| ==> other[m] == lines[m]
    ensures ScanHunk(other, j, cursor, coveredLines, key) == ScanHunk(lines, j, cursor, coveredLines, key)
    decreases |lines| - j
  {
    if j < |lines| {
      ScanHunkSameFrom(lines, other, j + 1, if IsRemoved(lines[j]) then cursor else cursor + 1, coveredLines, key);
    }
  }

  /** The cursor of a scan from `j` is that of the scan from `j + 1` that starts one line on. */
  lemma {:induction false} CursorAtShift(lines: seq<string>, j: nat, cursor: nat, k: nat)
    requires j < k <= |lines|
    ensures CursorAt(lines, j, cursor, k) == CursorAt(lines, j + 1, if IsRemoved(lines[j]) then cursor else cursor + 1, k)
    decreases k - j
  {
    if k > j + 1 {
      CursorAtShift(lines, j, cursor, k - 1);
    }
  }

  /** A line that starts with "+" or " " is added or context: no boundary, never removed. */
  lemma {:induction false} PlainLineShape(line: string)
    requires IsAdded(line) || IsContext(line)
    ensures !IsBoundary(line) && !IsRemoved(line)
    ensures IsAdded(line) <==> line[0] == '+'
  {
    assert !IsFileHeader(line) by {
      if |line| >= 10 { assert line[..10][0] == line[0]; }
    }
  }

  /** The hunk scan over one added line. */
  lemma {:induction false} ScanAddedLine(lines: seq<string>, j: nat, cursor: nat, cov: CoveredLines, key: string)
    requires j < |lines| && IsAdded(lines[j])
    ensures ScanHunk(lines, j, cursor, cov, key).added == 1 + ScanHunk(lines, j + 1, cursor + 1, cov, key).added
    ensures ScanHunk(lines, j, cursor, cov, key).uncovered
            == (if IsUncovered(cov, key, cursor) then 1 else 0) + ScanHunk(lines, j + 1, cursor + 1, cov, key).uncovered
  {
    PlainLineShape(lines[j]);
  }

  /** The hunk scan over one context line. */
  lemma {:induction false} ScanContextLine(lines: seq<string>, j: nat, cursor: nat, cov: CoveredLines, key: string)
    requires j < |lines| && IsContext(lines[j])
    ensures ScanHunk(lines, j, cursor, cov, key).added == ScanHunk(lines, j + 1, cursor + 1, cov, key).added
    ensures ScanHunk(lines, j, cursor, cov, key).uncovered == ScanHunk(lines, j + 1, cursor + 1, cov, key).uncovered
  {
    PlainLineShape(lines[j]);
  }

  /**
   * A context line at `k` inside the scan from `j`, turned into the "+"
   * line `plus`: the scan counts exactly one more added line, and one more
   * uncovered line exactly when the line number at `k` is not covered.
   */
  lemma {:induction false} ScanContextToAdded(lines: seq<string>, j: nat, cursor: nat, k: nat, plus: string,
                                              coveredLines: CoveredLines, key: string)
    requires j <= k < |lines| && k < HunkEnd(lines, j)
    requires IsContext(lines[k]) && IsAdded(plus)
    ensures ScanHunk(lines[k := plus], j, cursor, coveredLines, key)
            == ScanHunk(lines, j, cursor, coveredLines, key).Plus(
                 Counts(1, if IsUncovered(coveredLines, key, CursorAt(lines, j, cursor, k)) then 1 else 0))
    decreases k - j
  {
    if j == k {
      ScanEditedHere(lines, k, cursor, plus, coveredLines, key);
    } else {
      var next := if IsRemoved(lines[j]) then cursor else cursor + 1;
      assert HunkEnd(lines, j) == HunkEnd(lines, j + 1);
      ScanContextToAdded(lines, j + 1, next, k, plus, coveredLines, key);
      CursorAtShift(lines, j, cursor, k);
      ScanSameHead(lines[k := plus], lines, j, cursor, coveredLines, key,
                      Counts(1, if IsUncovered(coveredLines, key, CursorAt(lines, j, cursor, k)) then 1 else 0));
    }
  }

  /** The scan from the edited line itself. */
  lemma {:induction false} ScanEditedHere(lines: seq<string>, k: nat, cursor: nat, plus: string,
                                          coveredLines: CoveredLines, key: string)
    requires k < |lines| && IsContext(lines[k]) && IsAdded(plus)
    ensures ScanHunk(lines[k := plus], k, cursor, coveredLines, key)
            == ScanHunk(lines, k, cursor, coveredLines, key).Plus(Counts(1, if IsUncovered(coveredLines, key, cursor) then 1 else 0))
  {
    var other := lines[k := plus];
    PlainLineShape(lines[k]);
    PlainLineShape(plus);
    ScanHunkSameFrom(lines, other, k + 1, cursor + 1, coveredLines, key);
    ScanAddedLine(other, k, cursor, coveredLines, key);
    ScanContextLine(lines, k, cursor, coveredLines, key);
  }

  /** Two scans from the same non-boundary line differ by what the scans from the next line differ by. */
  lemma {:induction false} ScanSameHead(edited: seq<string>, lines: seq<string>, j: nat, cursor: nat,
                                        coveredLines: CoveredLines, key: string, d: Counts)
    requires j < |lines| && j < |edited| && edited[j] == lines[j] && !IsBoundary(lines[j])
    requires var next := if IsRemoved(lines[j]) then cursor else cursor + 1;
             ScanHunk(edited, j + 1, next, coveredLines, key) == ScanHunk(lines, j + 1, next, coveredLines, key).Plus(d)
    ensures ScanHunk(edited, j, cursor, coveredLines, key) == ScanHunk(lines, j, cursor, coveredLines, key).Plus(d)
  {
    var next := if IsRemoved(lines[j]) then cursor else cursor + 1;
    ScanHunkUnfoldAdded(edited, j, cursor, next, coveredLines, key);
    ScanHunkUnfoldAdded(lines, j, cursor, next, coveredLines, key);
    ScanHunkUnfoldUncovered(edited, j, cursor, next, coveredLines, key);
    ScanHunkUnfoldUncovered(lines, j, cursor, next, coveredLines, key);
  }

  /** A scan that does not pass index `k` is not changed by any edit there that keeps `k` a non-boundary line. */
  lemma {:induction false} ScanNotPassing(lines: seq<string>, j: nat, cursor: nat, k: nat, plus: string,
                                          coveredLines: CoveredLines, key: string)
    requires j <= |lines| && k < |lines|
    requires !IsBoundary(lines[k]) && !IsBoundary(plus)
    requires !(j <= k < HunkEnd(lines, j))
    ensures ScanHunk(lines[k := plus], j, cursor, coveredLines, key) == ScanHunk(lines, j, cursor, coveredLines, key)
  {
    var other := lines[k := plus];
    var e := HunkEnd(lines, j);
    if k < j {
      ScanHunkSameFrom(lines, other, j, cursor, coveredLines, key);
    } else {
      assert other[..e] == lines[..e];
      ScanHunkLocal(lines, other, j, cursor, coveredLines, key);
    }
  }

  /** `indexOf` of a line that neither the old nor the new line at `k` equals is not changed by the edit. */
  lemma {:induction false} IndexFromEdit(lines: seq<string>, k: nat, plus: string, line: string, from: nat)
    requires from <= |lines| && k < |lines|
    requires lines[k] != line && plus != line
    ensures IndexFrom(lines[k := plus], line, from) == IndexFrom(lines, line, from)
    decreases |lines| - from
  {
    if from < |lines| && lines[from] != line {
      IndexFromEdit(lines, k, plus, line, from + 1);
    }
  }

  /**
   * What the edit does to two states of the outer loop: the same current
   * file, both counts raised or held, and the uncovered count raised by no
   * more than the added count.
   */
  predicate GrowsByAddedLines(edited: Scan, original: Scan) {
    edited.currentFile == original.currentFile && CountsGrow(edited.counts, original.counts)
  }

  /** Both counts raised or held, the uncovered one by no more than the added one. */
  predicate CountsGrow(edited: Counts, original: Counts) {
    original.added <= edited.added && original.uncovered <= edited.uncovered
    && edited.uncovered - original.uncovered <= edited.added - original.added
  }

  /** Every hunk scan of the edited lines counts at least as much, and at least as many more added as uncovered lines. */
  lemma {:induction false} ScanContextToAddedGrows(lines: seq<string>, j: nat, cursor: nat, k: nat, plus: string,
                                                   coveredLines: CoveredLines, key: string)
    requires j <= |lines| && k < |lines|
    requires IsContext(lines[k]) && IsAdded(plus)
    ensures CountsGrow(ScanHunk(lines[k := plus], j, cursor, coveredLines, key), ScanHunk(lines, j, cursor, coveredLines, key))
  {
    PlainLineShape(lines[k]);
    PlainLineShape(plus);
    if j <= k < HunkEnd(lines, j) {
      ScanContextToAdded(lines, j, cursor, k, plus, coveredLines, key);
    } else {
      ScanNotPassing(lines, j, cursor, k, plus, coveredLines, key);
    }
  }

  /** One Step on the edited lines throws alike and keeps GrowsByAddedLines. */
  lemma {:induction false} StepContextToAdded(lines: seq<string>, i: nat, k: nat, plus: string,
                                              e: Scan, o: Scan, coveredLines: CoveredLines)
    requires i < |lines| && k < |lines|
    requires IsContext(lines[k]) && IsAdded(plus)
    requires GrowsByAddedLines(e, o)
    ensures Step(lines[k := plus], i, e, coveredLines).Failure? <==> Step(lines, i, o, coveredLines).Failure?
    ensures Step(lines[k := plus], i, e, coveredLines).Failure? ==>
              Step(lines[k := plus], i, e, coveredLines) == Step(lines, i, o, coveredLines)
    ensures Step(lines[k := plus], i, e, coveredLines).Success? ==>
              GrowsByAddedLines(Step(lines[k := plus], i, e, coveredLines).value, Step(lines, i, o, coveredLines).value)
  {
    var other := lines[k := plus];
    PlainLineShape(lines[k]);
    PlainLineShape(plus);
    if i == k {
      StepIgnoresOtherLines(lines, i, o, coveredLines);
      StepIgnoresOtherLines(other, i, e, coveredLines);
    } else {
      assert other[i] == lines[i];
      if OpensScan(lines, i) {
        IndexFromEdit(lines, k, plus, lines[i], 0);
        ScanContextToAddedGrows(lines, FirstIndex(lines, lines[i]) + 1, Exec(lines[i]).value, k, plus,
                                coveredLines, LookupKey(o.currentFile));
      }
      StepSameLine(other, lines, i, e, o, coveredLines);
    }
  }

  /**
   * One Step on the same line of two diffs, from two states in
   * GrowsByAddedLines, keeps it when the hunk scan the line opens does.
   */
  lemma {:induction false} StepSameLine(edited: seq<string>, lines: seq<string>, i: nat, e: Scan, o: Scan,
                                        coveredLines: CoveredLines)
    requires i < |lines| && i < |edited| && edited[i] == lines[i]
    requires GrowsByAddedLines(e, o)
    requires OpensScan(lines, i) ==>
               CountsGrow(ScanHunk(edited, FirstIndex(edited, edited[i]) + 1, Exec(lines[i]).value, coveredLines, LookupKey(o.currentFile)),
                          ScanHunk(lines, FirstIndex(lines, lines[i]) + 1, Exec(lines[i]).value, coveredLines, LookupKey(o.currentFile)))
    ensures Step(edited, i, e, coveredLines).Failure? <==> Step(lines, i, o, coveredLines).Failure?
    ensures Step(edited, i, e, coveredLines).Failure? ==> Step(edited, i, e, coveredLines) == Step(lines, i, o, coveredLines)
    ensures Step(edited, i, e, coveredLines).Success? ==>
              GrowsByAddedLines(Step(edited, i, e, coveredLines).value, Step(lines, i, o, coveredLines).value)
  {
    StepFault(lines, i, o, coveredLines);
    StepFault(edited, i, e, coveredLines);
    if !BadHeader(lines, i) {
      StepCounts(lines, i, o, coveredLines);
      StepCounts(edited, i, e, coveredLines);
      StepFile(lines, i, o, coveredLines);
      StepFile(edited, i, e, coveredLines);
    }
  }

  /**
   * Turning a context line into a "+" line changes no fault and no current
   * file, and over every prefix of the outer loop raises or holds both
   * counts, the uncovered one by no more than the added one.
   */
  lemma {:induction false} RunContextToAdded(lines: seq<string>, n: nat, k: nat, plus: string, coveredLines: CoveredLines)
    requires n <= |lines| && k < |lines|
    requires IsContext(lines[k]) && IsAdded(plus)
    ensures Run(lines[k := plus], n, coveredLines).Failure? <==> Run(lines, n, coveredLines).Failure?
    ensures Run(lines[k := plus], n, coveredLines).Failure? ==> Run(lines[k := plus], n, coveredLines) == Run(lines, n, coveredLines)
    ensures Run(lines[k := plus], n, coveredLines).Success? ==>
              GrowsByAddedLines(Run(lines[k := plus], n, coveredLines).value, Run(lines, n, coveredLines).value)
  {
    if n > 0 {
      var other := lines[k := plus];
      RunContextToAdded(lines, n - 1, k, plus, coveredLines);
      if Run(other, n - 1, coveredLines).Success? {
        var e := Run(other, n - 1, coveredLines).value;
        var o := Run(lines, n - 1, coveredLines).value;
        RunNext(other, n - 1, coveredLines, e);
        RunNext(lines, n - 1, coveredLines, o);
        StepContextToAdded(lines, n - 1, k, plus, e, o, coveredLines);
      }
    }
  }

  /** The same on the diff text: the whole computation on the edited diff throws alike, and otherwise raises or holds both counts. */
  lemma {:induction false} CalculateContextToAdded(lines: seq<string>, k: nat, plus: string, coverage: seq<FileCoverage>)
    requires |lines| >= 1 && forall m :: 0 <= m < |lines| ==> '\n' !in lines[m]
    requires k < |lines| && IsContext(lines[k]) && IsAdded(plus) && '\n' !in plus
    ensures Calculate(Join(lines[k := plus], '\n'), coverage).Failure? <==> Calculate(Join(lines, '\n'), coverage).Failure?
    ensures Calculate(Join(lines[k := plus], '\n'), coverage).Success? ==>
              CountsGrow(Calculate(Join(lines[k := plus], '\n'), coverage).value, Calculate(Join(lines, '\n'), coverage).value)
  {
    var edited := lines[k := plus];
    assert forall m :: 0 <= m < |edited| ==> '\n' !in edited[m];
    CalculateOnLines(lines, coverage);
    CalculateOnLines(edited, coverage);
    RunContextToAdded(lines, |lines|, k, plus, CoveredMap(coverage));
  }

  /**
   * Inserting an uncovered "+" line is another matter: it pushes down the
   * line numbers after it, so it can lower the uncovered count. From cursor
   * `c`, with lines c + 1 and c + 3 covered, the hunk `+`, ` `, `+` has two
   * uncovered lines of two, and with one more `+` line put first, one of
   * three.
   */
  lemma {:induction false} InsertedLineShifts(lines: seq<string>, c: nat, coveredLines: CoveredLines, key: string)
    requires |lines| == 4 && IsAdded(lines[0]) && IsAdded(lines[1]) && IsContext(lines[2]) && IsAdded(lines[3])
    requires key in coveredLines && coveredLines[key] == {c + 1, c + 3}
    ensures ScanHunk(lines[1..], 0, c, coveredLines, key) == Counts(2, 2)
    ensures ScanHunk(lines, 0, c, coveredLines, key).added == 3
    ensures ScanHunk(lines, 0, c, coveredLines, key).uncovered == 1
  {
    OddOffsetsCovered(c, coveredLines, key);
    var before := lines[1..];
    assert before[0] == lines[1] && before[1] == lines[2] && before[2] == lines[3];
    AddedContextAddedAtEnd(before, 0, c, coveredLines, key);
    InsertedLineAfter(lines, c, coveredLines, key);
  }

  /** With lines c + 1 and c + 3 covered, lines c and c + 2 are not. */
  lemma {:induction false} OddOffsetsCovered(c: nat, coveredLines: CoveredLines, key: string)
    requires key in coveredLines && coveredLines[key] == {c + 1, c + 3}
    ensures IsUncovered(coveredLines, key, c) && IsUncovered(coveredLines, key, c + 2)
    ensures !IsUncovered(coveredLines, key, c + 1) && !IsUncovered(coveredLines, key, c + 3)
  {
  }

  /** The four-line hunk of InsertedLineShifts: three added lines, at the cursor and one and three lines on. */
  lemma {:induction false} InsertedLineAfter(lines: seq<string>, c: nat, coveredLines: CoveredLines, key: string)
    requires |lines| == 4 && IsAdded(lines[0]) && IsAdded(lines[1]) && IsContext(lines[2]) && IsAdded(lines[3])
    ensures ScanHunk(lines, 0, c, coveredLines, key).added == 3
    ensures ScanHunk(lines, 0, c, coveredLines, key).uncovered
            == (if IsUncovered(coveredLines, key, c) then 1 else 0) + (if IsUncovered(coveredLines, key, c + 1) then 1 else 0)
               + (if IsUncovered(coveredLines, key, c + 3) then 1 else 0)
  {
    AddedContextAddedAtEnd(lines, 1, c + 1, coveredLines, key);
    ScanAddedLine(lines, 0, c, coveredLines, key);
  }

  /** The scan of a `+`, ` `, `+` stretch that ends the lines. */
  lemma {:induction false} AddedContextAddedAtEnd(lines: seq<string>, j: nat, c: nat, coveredLines: CoveredLines, key: string)
    requires j + 3 == |lines| && IsAdded(lines[j]) && IsContext(lines[j + 1]) && IsAdded(lines[j + 2])
    ensures ScanHunk(lines, j, c, coveredLines, key).added == 2
    ensures ScanHunk(lines, j, c, coveredLines, key).uncovered
            == (if IsUncovered(coveredLines, key, c) then 1 else 0) + (if IsUncovered(coveredLines, key, c + 2) then 1 else 0)
  {
    assert ScanHunk(lines, j + 3, c + 3, coveredLines, key) == Counts(0, 0);
    ScanAddedLine(lines, j + 2, c + 2, coveredLines, key);
    ScanContextLine(lines, j + 1, c + 1, coveredLines, key);
    ScanAddedLine(lines, j, c, coveredLines, key);
  }

  /** The same on concrete lines: `+a`, ` c`, `+b` from line 1 with lines 2 and 4 covered, before and after `+x`. */
  lemma {:induction false} InsertedLineCanLowerUncovered()
    ensures ScanHunk(["+a", " c", "+b"], 0, 1, map["" := {2, 4}], "") == Counts(2, 2)
    ensures ScanHunk(["+x", "+a", " c", "+b"], 0, 1, map["" := {2, 4}], "") == Counts(3, 1)
  {
    var after := ["+x", "+a", " c", "+b"];
    assert after[1..] == ["+a", " c", "+b"];
    InsertedLineShifts(after, 1, map["" := {2, 4}], "");
  }

  /** Without a matching hunk header, nothing is counted: the outer loop alone counts no line. */
  lemma {:induction false} RunCountsOnlyInScans(lines: seq<string>, n: nat, coveredLines: CoveredLines)
    requires n <= |lines|
    requires forall i :: 0 <= i < n ==> !OpensScan(lines, i)
    requires Run(lines, n, coveredLines).Success?
    ensures Run(lines, n, coveredLines).value.counts == Counts(0, 0)
  {
    if n > 0 {
      assert Run(lines, n - 1, coveredLines).Success?;
      RunCountsOnlyInScans(lines, n - 1, coveredLines);
      var s := Run(lines, n - 1, coveredLines).value;
      RunNext(lines, n - 1, coveredLines, s);
      StepCounts(lines, n - 1, s, coveredLines);
    }
  }

  /**
   * The scan of the hunk header at index `i` starts right after it exactly
   * when no earlier line is the same string; otherwise it starts after the
   * first copy.
   */
  lemma {:induction false} ScanStartIsFirstCopy(lines: seq<string>, i: nat)
    requires i < |lines|
    ensures FirstIndex(lines, lines[i]) <= i
    ensures FirstIndex(lines, lines[i]) == i <==> forall k :: 0 <= k < i ==> lines[k] != lines[i]
  {
    FirstIndexIsFirst(lines, lines[i]);
  }

  /** The text whose `split("\n")` gives `lines`, when no line holds a newline, is what Calculate splits. */
  lemma {:induction false} CalculateOnLines(lines: seq<string>, coverage: seq<FileCoverage>)
    requires |lines| >= 1 && forall k :: 0 <= k < |lines| ==> '\n' !in lines[k]
    ensures Calculate(Join(lines, '\n'), coverage) == Outcome(Run(lines, |lines|, CoveredMap(coverage)))
  {
    SplitJoin(lines, '\n');
  }

  /**
   * The line at `k` follows a `diff --git` line with no `@@` line in
   * between, as the `+++ b/<path>` file marker git writes after a file
   * header and before the first hunk does.
   */
  predicate InFileHeader(lines: seq<string>, k: nat)
    requires k < |lines|
  {
    exists j :: 0 <= j < k && IsFileHeader(lines[j]) && forall m :: j < m < k ==> !IsHunkStart(lines[m])
  }

  /** Every "+" line of the diff is a file marker. */
  predicate OnlyMarkers(lines: seq<string>) {
    forall k :: 0 <= k < |lines| && IsAdded(lines[k]) ==> InFileHeader(lines, k)
  }

  /** A `@@` line is not a `diff --git` line. */
  lemma {:induction false} HunkStartIsNotFileHeader(line: string)
    requires IsHunkStart(line)
    ensures !IsFileHeader(line)
  {
    if |line| >= 10 {
      assert line[..10][0] == line[0];
    }
  }

  /** Every `diff --git` line before a line `k` of the scan that starts after the `@@` line at `a` lies before `a`. */
  lemma {:induction false} ScanBlocksMarkers(lines: seq<string>, a: nat, k: nat)
    requires a < |lines| && IsHunkStart(lines[a])
    requires a + 1 <= k < HunkEnd(lines, a + 1)
    ensures forall j :: 0 <= j < k && IsFileHeader(lines[j]) ==> j < a
  {
    HunkStartIsNotFileHeader(lines[a]);
  }

  /** No scan that starts after a `@@` line reaches a file marker: on such a diff it finds no "+" line. */
  lemma {:induction false} MarkerOutsideScan(lines: seq<string>, a: nat)
    requires a < |lines| && IsHunkStart(lines[a]) && OnlyMarkers(lines)
    ensures AddedIn(lines, a + 1, HunkEnd(lines, a + 1)) == {}
  {
    forall k | a + 1 <= k < HunkEnd(lines, a + 1)
      ensures !IsAdded(lines[k])
    {
      ScanBlocksMarkers(lines, a, k);
    }
  }

  /** On every diff, no line that a scan after a `@@` line passes belongs to a file header. */
  lemma {:induction false} ScanLineNotInFileHeader(lines: seq<string>, a: nat, k: nat)
    requires a < |lines| && IsHunkStart(lines[a])
    requires a + 1 <= k < HunkEnd(lines, a + 1)
    ensures !InFileHeader(lines, k)
  {
    ScanBlocksMarkers(lines, a, k);
    forall j | 0 <= j < k && IsFileHeader(lines[j])
      ensures exists m :: j < m < k && IsHunkStart(lines[m])
    {
      assert j < a < k && IsHunkStart(lines[a]);
    }
  }

  /**
   * On every diff, the scan after a `@@` line counts exactly its "+" lines
   * that are not file markers: a `+++` marker is never counted.
   */
  lemma {:induction false} ScanCountsNoMarker(lines: seq<string>, a: nat, newStart: nat, coveredLines: CoveredLines, key: string)
    requires a < |lines| && IsHunkStart(lines[a])
    ensures ScanHunk(lines, a + 1, newStart, coveredLines, key).added
            == |set k: nat | a + 1 <= k < HunkEnd(lines, a + 1) && IsAdded(lines[k]) && !InFileHeader(lines, k)|
  {
    var e := HunkEnd(lines, a + 1);
    forall k | a + 1 <= k < e
      ensures !InFileHeader(lines, k)
    {
      ScanLineNotInFileHeader(lines, a, k);
    }
    assert AddedIn(lines, a + 1, e) == set k: nat | a + 1 <= k < e && IsAdded(lines[k]) && !InFileHeader(lines, k);
    ScanHunkClosedForm(lines, a + 1, newStart, coveredLines, key);
  }

  /** When every "+" line is a file marker, the scan after a `@@` line counts nothing. */
  lemma {:induction false} ScanOnlyMarkers(lines: seq<string>, a: nat, newStart: nat, coveredLines: CoveredLines, key: string)
    requires a < |lines| && IsHunkStart(lines[a]) && OnlyMarkers(lines)
    ensures ScanHunk(lines, a + 1, newStart, coveredLines, key) == Counts(0, 0)
  {
    MarkerOutsideScan(lines, a);
    ScanHunkClosedForm(lines, a + 1, newStart, coveredLines, key);
  }

  /** When every "+" line is a file marker, an iteration that does not throw adds nothing to the counters. */
  lemma {:induction false} StepOnlyMarkers(lines: seq<string>, i: nat, s: Scan, coveredLines: CoveredLines)
    requires i < |lines| && OnlyMarkers(lines)
    requires Step(lines, i, s, coveredLines).Success?
    ensures Step(lines, i, s, coveredLines).value.counts == s.counts
  {
    StepCounts(lines, i, s, coveredLines);
    if OpensScan(lines, i) {
      ScanOnlyMarkers(lines, FirstIndex(lines, lines[i]), Exec(lines[i]).value, coveredLines, LookupKey(s.currentFile));
    }
  }

  /**
   * A diff whose only "+" lines are file markers adds nothing: as long as
   * the outer loop does not throw, both counters stay zero, however often a
   * hunk is scanned.
   */
  lemma {:induction false} RunOnlyMarkers(lines: seq<string>, n: nat, coveredLines: CoveredLines)
    requires n <= |lines| && OnlyMarkers(lines)
    requires Run(lines, n, coveredLines).Success?
    ensures Run(lines, n, coveredLines).value.counts == Counts(0, 0)
  {
    if n > 0 {
      assert Run(lines, n - 1, coveredLines).Success?;
      RunOnlyMarkers(lines, n - 1, coveredLines);
      var s := Run(lines, n - 1, coveredLines).value;
      RunNext(lines, n - 1, coveredLines, s);
      StepOnlyMarkers(lines, n - 1, s, coveredLines);
    }
  }

  /** The whole computation on a diff with no "+" line outside its file markers reports no added line. */
  lemma {:induction false} CalculateOnlyMarkers(diff: string, coverage: seq<FileCoverage>)
    requires OnlyMarkers(Split(diff, '\n'))
    requires Calculate(diff, coverage).Success?
    ensures Calculate(diff, coverage).value == Counts(0, 0)
  {
    var lines := Split(diff, '\n');
    RunOnlyMarkers(lines, |lines|, CoveredMap(coverage));
  }
}
