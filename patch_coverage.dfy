/**
 * `calculatePatchCoverage` as written: the covered-line map, the outer scan
 * over the diff lines that tracks the current file, and the inner scan of a
 * hunk that counts added and uncovered lines.
 *
 * The specification functions (Step, Run, Calculate) say what one pass over
 * the lines computes. The methods are the loops themselves: ScanHunkLines is
 * the inner loop, ScanDiffLines the outer one, and CalculatePatchCoverage
 * puts them together; each is proved equal to its specification function.
 */
module PatchCoverage {
  import opened Wrappers
  import opened Strings
  import opened Coverage
  import opened HunkHeader

  const FileHeaderPrefix: string := "diff --git"
  const HunkPrefix: string := "@@"

  /*
   * The four line tests `startsWith("diff --git")`, `startsWith("@@")`,
   * `startsWith("+")` and `startsWith("-")`, written out character by
   * character for the short prefixes; StartsWithPrefixes proves each equal to
   * StartsWith with its prefix.
   */
  predicate IsFileHeader(line: string) { |line| >= 10 && line[..10] == FileHeaderPrefix }
  predicate IsHunkStart(line: string) { |line| >= 2 && line[0] == '@' && line[1] == '@' }
  /** A line that ends the scan of a hunk. */
  predicate IsBoundary(line: string) { IsHunkStart(line) || IsFileHeader(line) }
  predicate IsAdded(line: string) { |line| >= 1 && line[0] == '+' }
  predicate IsRemoved(line: string) { |line| >= 1 && line[0] == '-' }

  /** Each line test is `startsWith` with its prefix. */
  lemma {:induction false} StartsWithPrefixes(line: string)
    ensures IsFileHeader(line) <==> StartsWith(line, FileHeaderPrefix)
    ensures IsHunkStart(line) <==> StartsWith(line, HunkPrefix)
    ensures IsAdded(line) <==> StartsWith(line, "+")
    ensures IsRemoved(line) <==> StartsWith(line, "-")
  {
    if |line| >= 2 {
      assert line[..2] == [line[0], line[1]];
    }
    if |line| >= 1 {
      assert line[..1] == [line[0]];
    }
  }

  /** The two counters `addedLines` and `uncoveredAddedLines`. */
  datatype Counts = Counts(added: nat, uncovered: nat) {
    function Plus(other: Counts): Counts {
      Counts(added + other.added, uncovered + other.uncovered)
    }
  }

  /** `parts[2].replace(...)` on a `diff --git` line with fewer than three tokens throws a TypeError. */
  datatype Fault = MissingPathToken(lineIndex: nat)

  /** The state of the outer scan: `currentFile` (None for `null`) and the counters. */
  datatype Scan = Scan(currentFile: Option<string>, counts: Counts)

  const Start: Scan := Scan(None, Counts(0, 0))

  /** `line.split(" ")[2].replace("b/", "")`; None where `parts[2]` is undefined. */
  function FilePath(line: string): Option<string> {
    var parts := Split(line, ' ');
    if |parts| < 3 then None else Some(ReplaceFirst(parts[2], "b/", ""))
  }

  /** `currentFile || ""`. */
  function LookupKey(currentFile: Option<string>): string {
    currentFile.GetOr("")
  }

  /** `!coveredLines.get(key)?.has(lineNumber)`. */
  predicate IsUncovered(coveredLines: CoveredLines, key: string, lineNumber: int) {
    key !in coveredLines || lineNumber !in coveredLines[key]
  }

  /** The first index at or after `from` that holds a string equal to `line`, or `|lines|` when there is none. */
  function IndexFrom(lines: seq<string>, line: string, from: nat): (k: nat)
    requires from <= |lines|
    ensures from <= k <= |lines|
    ensures k < |lines| ==> lines[k] == line
    decreases |lines| - from
  {
    if from == |lines| || lines[from] == line then from else IndexFrom(lines, line, from + 1)
  }

  /** No index from `from` up to the one IndexFrom returns holds `line`. */
  lemma {:induction false} IndexFromSkips(lines: seq<string>, line: string, from: nat)
    requires from <= |lines|
    ensures forall m :: from <= m < IndexFrom(lines, line, from) ==> lines[m] != line
    decreases |lines| - from
  {
    if from < |lines| && lines[from] != line {
      IndexFromSkips(lines, line, from + 1);
    }
  }

  /** `lines.indexOf(line)`: the first index that holds a string equal to `line`. */
  function FirstIndex(lines: seq<string>, line: string): (k: nat)
    requires line in lines
    ensures k < |lines| && lines[k] == line
  {
    IndexFromSkips(lines, line, 0);
    IndexFrom(lines, line, 0)
  }

  /** No index before the one FirstIndex returns holds `line`: it is the first copy. */
  lemma {:induction false} FirstIndexIsFirst(lines: seq<string>, line: string)
    requires line in lines
    ensures forall m :: 0 <= m < FirstIndex(lines, line) ==> lines[m] != line
  {
    IndexFromSkips(lines, line, 0);
  }

  /**
   * The cursor of the hunk scan that began at index `from` with `newStart`,
   * once it reaches index `j`: every line in between that does not start
   * with "-" has advanced it by one.
   */
  function CursorAt(lines: seq<string>, from: nat, newStart: nat, j: nat): (cursor: nat)
    requires from <= j <= |lines|
    ensures newStart <= cursor <= newStart + (j - from)
    decreases j - from
  {
    if j == from then newStart
    else CursorAt(lines, from, newStart, j - 1) + (if IsRemoved(lines[j - 1]) then 0 else 1)
  }

  /** Where the hunk scan starting at `from` stops: the first boundary line at or after `from`, or the end. */
  function HunkEnd(lines: seq<string>, from: nat): (e: nat)
    requires from <= |lines|
    ensures from <= e <= |lines|
    ensures forall k :: from <= k < e ==> !IsBoundary(lines[k])
    ensures e < |lines| ==> IsBoundary(lines[e])
    decreases |lines| - from
  {
    if from == |lines| || IsBoundary(lines[from]) then from else HunkEnd(lines, from + 1)
  }

  /**
   * The inner loop from index `j` with the cursor at `cursor`: the counts it
   * adds before it reaches a boundary line or the end of the lines.
   */
  function ScanHunk(lines: seq<string>, j: nat, cursor: nat, coveredLines: CoveredLines, key: string): (c: Counts)
    requires j <= |lines|
    ensures c.uncovered <= c.added
    decreases |lines| - j
  {
    if j == |lines| || IsBoundary(lines[j]) then Counts(0, 0)
    else
      var here :=
        if IsAdded(lines[j]) then Counts(1, if IsUncovered(coveredLines, key, cursor) then 1 else 0)
        else Counts(0, 0);
      var next := if IsRemoved(lines[j]) then cursor else cursor + 1;
      here.Plus(ScanHunk(lines, j + 1, next, coveredLines, key))
  }

  /** One iteration of the outer loop, on the line at index `i`. */
  function Step(lines: seq<string>, i: nat, s: Scan, coveredLines: CoveredLines): Result<Scan, Fault>
    requires i < |lines|
  {
    var line := lines[i];
    if IsFileHeader(line) then
      match FilePath(line)
      case None => Failure(MissingPathToken(i))
      case Some(path) => Success(Scan(Some(path), s.counts))
    else if IsHunkStart(line) then
      match Exec(line)
      case None => Success(s)
      case Some(newStart) =>
        var hunk := ScanHunk(lines, FirstIndex(lines, line) + 1, newStart, coveredLines, LookupKey(s.currentFile));
        Success(Scan(s.currentFile, s.counts.Plus(hunk)))
    else Success(s)
  }

  /** The outer loop over the first `n` lines. */
  function Run(lines: seq<string>, n: nat, coveredLines: CoveredLines): (r: Result<Scan, Fault>)
    requires n <= |lines|
    ensures r.Success? ==> r.value.counts.uncovered <= r.value.counts.added
  {
    if n == 0 then Success(Start)
    else
      match Run(lines, n - 1, coveredLines)
      case Failure(e) => Failure(e)
      case Success(s) => Step(lines, n - 1, s, coveredLines)
  }

  /** What the function returns once the outer loop is over: the counters, or the fault it threw. */
  function Outcome(run: Result<Scan, Fault>): Result<Counts, Fault> {
    match run
    case Failure(e) => Failure(e)
    case Success(s) => Success(s.counts)
  }

  /** The whole computation: the covered-line map, the split, the outer loop. */
  function Calculate(diff: string, coverage: seq<FileCoverage>): (r: Result<Counts, Fault>)
    ensures r.Success? ==> r.value.uncovered <= r.value.added
  {
    var lines := Split(diff, '\n');
    Outcome(Run(lines, |lines|, CoveredMap(coverage)))
  }

  /** Once the outer loop has thrown, it stays thrown. */
  lemma {:induction false} RunFailurePersists(lines: seq<string>, a: nat, b: nat, coveredLines: CoveredLines)
    requires a <= b <= |lines|
    requires Run(lines, a, coveredLines).Failure?
    ensures Run(lines, b, coveredLines) == Run(lines, a, coveredLines)
    decreases b - a
  {
    if a < b {
      RunFailurePersists(lines, a, b - 1, coveredLines);
    }
  }

  /** The outer loop over one more line is one more Step. */
  lemma {:induction false} RunNext(lines: seq<string>, i: nat, coveredLines: CoveredLines, s: Scan)
    requires i < |lines|
    requires Run(lines, i, coveredLines) == Success(s)
    ensures Run(lines, i + 1, coveredLines) == Step(lines, i, s, coveredLines)
  {
  }

  /**
   * Every other line, including `+++`/`---` markers, added or removed lines
   * met by the outer loop and `@@` lines the pattern does not match, changes
   * neither the current file nor the counters.
   */
  lemma {:induction false} StepIgnoresOtherLines(lines: seq<string>, i: nat, s: Scan, coveredLines: CoveredLines)
    requires i < |lines| && !IsFileHeader(lines[i]) && (!IsHunkStart(lines[i]) || Exec(lines[i]).None?)
    ensures Step(lines, i, s, coveredLines) == Success(s)
  {
  }

  /**
   * The inner loop of a hunk: walks `diffLines` from index `from` with the
   * cursor at `newStart` until a boundary line, adding to the two counters.
   */
  method ScanHunkLines(diffLines: seq<string>, from: nat, newStart: nat, coveredLines: CoveredLines,
                       currentFile: Option<string>, addedIn: nat, uncoveredIn: nat)
    returns (addedLines: nat, uncoveredAddedLines: nat)
    requires from <= |diffLines|
    ensures Counts(addedLines, uncoveredAddedLines)
            == Counts(addedIn, uncoveredIn).Plus(ScanHunk(diffLines, from, newStart, coveredLines, LookupKey(currentFile)))
  {
    addedLines, uncoveredAddedLines := addedIn, uncoveredIn;
    var lineNumber := newStart;
    var j := from;
    ghost var key := LookupKey(currentFile);
    while j < |diffLines|
      invariant from <= j <= |diffLines|
      invariant lineNumber == CursorAt(diffLines, from, newStart, j)
      invariant Counts(addedLines, uncoveredAddedLines).Plus(ScanHunk(diffLines, j, lineNumber, coveredLines, key))
                == Counts(addedIn, uncoveredIn).Plus(ScanHunk(diffLines, from, newStart, coveredLines, key))
      decreases |diffLines| - j
    {
      var diffLine := diffLines[j];
      if IsHunkStart(diffLine) || IsFileHeader(diffLine) {
        break;
      }
      if IsAdded(diffLine) {
        addedLines := addedLines + 1;
        var file := if currentFile.Some? then currentFile.value else "";
        if !(file in coveredLines && lineNumber in coveredLines[file]) {
          uncoveredAddedLines := uncoveredAddedLines + 1;
        }
      }
      if !IsRemoved(diffLine) {
        lineNumber := lineNumber + 1;
      }
      j := j + 1;
    }
  }

  /**
   * The outer loop of `calculatePatchCoverage` over the lines of the diff:
   * the two counters once every line has been visited, or the TypeError.
   */
  method ScanDiffLines(diffLines: seq<string>, coveredLines: CoveredLines) returns (r: Result<Counts, Fault>)
    ensures r == Outcome(Run(diffLines, |diffLines|, coveredLines))
  {
    var addedLines: nat := 0;
    var uncoveredAddedLines: nat := 0;
    var currentFile: Option<string> := None;

    for i := 0 to |diffLines|
      invariant Run(diffLines, i, coveredLines) == Success(Scan(currentFile, Counts(addedLines, uncoveredAddedLines)))
    {
      RunNext(diffLines, i, coveredLines, Scan(currentFile, Counts(addedLines, uncoveredAddedLines)));
      var line := diffLines[i];
      if IsFileHeader(line) {
        var parts := Split(line, ' ');
        if |parts| < 3 {
          RunFailurePersists(diffLines, i + 1, |diffLines|, coveredLines);
          return Failure(MissingPathToken(i));
        }
        currentFile := Some(ReplaceFirst(parts[2], "b/", ""));
      } else if IsHunkStart(line) {
        var hunkMatch := Exec(line);
        if hunkMatch.Some? {
          addedLines, uncoveredAddedLines :=
            ScanHunkLines(diffLines, FirstIndex(diffLines, line) + 1, hunkMatch.value, coveredLines,
                          currentFile, addedLines, uncoveredAddedLines);
        }
      }
    }
    r := Success(Counts(addedLines, uncoveredAddedLines));
  }

  /**
   * `calculatePatchCoverage(diff, coverage)`, returning the two counters
   * instead of their ratio, or the TypeError a short `diff --git` line raises.
   */
  method CalculatePatchCoverage(diff: string, coverage: seq<FileCoverage>) returns (r: Result<Counts, Fault>)
    ensures r == Calculate(diff, coverage)
    ensures r.Success? ==> r.value.uncovered <= r.value.added
  {
    var coveredLines := BuildCoveredLines(coverage);
    var diffLines := Split(diff, '\n');
    r := ScanDiffLines(diffLines, coveredLines);
  }
}
