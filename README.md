# Patch coverage calculator — a Dafny model

The calculator reads a unified diff between two commits and a list of
per-file line-coverage records. It reports the share of added lines that
no test executed. This project models its core, `calculatePatchCoverage`,
in both copies: the TypeScript source and the JavaScript it compiles to.
The core does four things:

- it builds a map from each file to the set of its line numbers whose hit
  count is positive; the last record for a file wins;
- it splits the diff text on `"\n"` and walks the lines once. A
  `diff --git` line sets the current file to
  `line.split(" ")[2].replace("b/", "")`. A `@@` line that the hunk-header
  pattern matches starts a hunk scan at the new-file start line;
- the hunk scan starts right after the first line of the diff that is equal
  to the header (`indexOf`) and stops at the next `@@` or `diff --git` line.
  Every `+` line counts as added, and as uncovered when its line number is
  not in the set of `currentFile || ""`. Every line that does not start with
  `-` advances the line number;
- it returns the ratio of uncovered to added lines.

The model returns the two counts, `Counts(added, uncovered)`, instead of the
floating-point ratio. It also models the `TypeError` that `parts[2]` raises
on a `diff --git` line with fewer than two spaces, as
`Failure(MissingPathToken(i))`.

Modules:

- `Wrappers`: Option and Result.
- `Strings`: `startsWith`, `split` with its inverse `Join`, `indexOf` and the
  first-occurrence `replace`.
- `Coverage`: the coverage records, the covered-line map as a function
  (`CoveredMap`), and the nested loop that fills it (`BuildCoveredLines`).
- `HunkHeader`: the regular expression `@@ -\d+(,\d+)? \+(\d+)(,\d+)? @@`,
  searched for at every position as `exec` does, and `parseInt` of its
  second group.
- `PatchCoverage`: the specification functions (`Step`, `Run`,
  `Calculate`). Beside them are the loops as methods, each proved equal to
  its function: `ScanHunkLines` is the inner loop, `ScanDiffLines` the outer
  loop, and `CalculatePatchCoverage` the whole function.
- `PatchCoverageProperties`: what one run computes.
  - A hunk scan counts exactly the `+` lines before the next boundary and,
    among them, the uncovered ones.
  - A run throws exactly at the first short `diff --git` line.
  - The current file is the one the last `diff --git` line names.
  - More coverage never adds uncovered lines.
  - Turning a context line into a `+` line moves no line number. Every scan
    that passes it counts one more added line, and one more uncovered line
    when its number is not covered; the whole computation throws alike and
    raises or holds both counts.
  - Nothing is counted without a matching hunk header.
  - The `+++ b/<path>` lines git writes between a `diff --git` line and the
    first `@@` line are never counted, on any diff: a scan after a `@@` line
    stops before it reaches the next file header. A diff whose only `+`
    lines are such markers therefore adds nothing. On other diffs the added
    count can exceed the number of `+` lines, because a hunk is scanned
    again for each later hunk with an identical header.
- `CorrectedCoverage`: the computation as the code evidently intends it.
  The current file is the new-side path, and each hunk is scanned from its
  own header.
  `FixedRunCountsHunkLines` proves that it counts exactly the intended
  lines.
- `Findings`: the two places where the code as written departs from that
  intent. Each is shown by a lemma over all inputs of a shape and by a
  concrete diff.

The inputs are values. The diff is a string, coverage is a sequence of
records, and the result is a `Result<Counts, Fault>`. Reading the coverage
file, running git and printing the percentage are outside the core.

The current file is evidently meant to be the changed file's path. The
call `replace("b/", "")` only makes sense on the `b/<path>` token, and git
writes the file header as `diff --git a/<path> b/<path>`, where that token
is the fourth. The code takes the third token, `a/<path>`, which
`replace("b/", "")` leaves unchanged. The model follows the code. Lookups
therefore use a key that names no file, so a covered added line of `a.txt`
counts as uncovered (`Findings.OldSidePathCounterexample`).

## Model

| member | source | states |
|---|---|---|
| Coverage.HitLines | src/index.ts:42-47 | a line number is in the set exactly when some detail with that line has a positive hit count |
| Coverage.CoveredMap | src/index.ts:39-49 | the map has one key per file named in the records, and each file maps to the hit lines of its last record |
| Coverage.BuildCoveredLines | dist/index.js:25-34 | the nested loop over records and details builds exactly CoveredMap of the records |
| Strings.SplitSpec | src/index.ts:51 | `split` yields one more piece than there are separators, no piece holds a separator, and joining the pieces gives back the text |
| Strings.SplitJoin | src/index.ts:51 | splitting the join of separator-free pieces gives back the pieces, so SplitSpec determines the result |
| Strings.IndexOfFrom | src/index.ts:59 | a found index is at or after the start and the pattern occurs there |
| Strings.IndexOfFromIsFirst | src/index.ts:59 | no earlier index from the start holds the pattern |
| Strings.ReplaceFirstSpec | src/index.ts:59 | `replace` with a string pattern leaves the text alone when the pattern is absent, and otherwise splices the replacement over the leftmost occurrence only |
| HunkHeader.Decimal | src/index.ts:64 | the decimal text of n is a non-empty digit string whose parseInt value is n |
| HunkHeader.DigitPrefixSpec | src/index.ts:62 | each `\d+` takes the maximal run of digits |
| HunkHeader.LeftmostMatchFound | src/index.ts:62 | the position the search reports is one where the pattern matches, and group 2 is read there |
| HunkHeader.LeftmostMatchIsLeftmost | src/index.ts:62 | no earlier position matches: exec returns the leftmost match of the unanchored pattern |
| HunkHeader.ExecFindsAnyMatch | src/index.ts:62-63 | exec succeeds exactly when the pattern matches at some position of the line |
| HunkHeader.HeaderRoundTrip | src/index.ts:62-64 | every header git writes, with or without a trailing section heading, parses to its new-file start line |
| HunkHeader.HeaderMatchesAtStart | src/index.ts:62 | such a header matches at its first character, capturing the decimal text of the new start |
| HunkHeader.NoMatchWithoutNewRange | src/index.ts:62-63 | a `@@` line with no ` +` anywhere does not match, so no hunk is opened |
| Strings.Split | src/index.ts:51 | `split` on one character gives at least one piece; SplitSpec and SplitJoin state what the pieces are |
| Strings.ReplaceFirst | src/index.ts:59 | `replace` with a string pattern; ReplaceFirstSpec states that only the leftmost occurrence is replaced |
| HunkHeader.DecimalValue | src/index.ts:64 | `parseInt(_, 10)` of a digit string; Decimal states that it inverts the decimal text of every natural number |
| HunkHeader.Exec | src/index.ts:62-64 | `exec` followed by `parseInt(match[2], 10)`; ExecFindsAnyMatch states when it matches, LeftmostMatchIsLeftmost which match it takes, and HeaderRoundTrip what it returns on git's headers |
| PatchCoverage.StartsWithPrefixes | src/index.ts:57 | the four line tests are `startsWith` with `diff --git`, `@@`, `+` and `-` |
| PatchCoverage.IndexFrom | src/index.ts:65 | the index found from `from` is in range and holds the line, or is the length when none does |
| PatchCoverage.FirstIndex | dist/index.js:49 | `indexOf` of a line of the list is an index that holds an equal line |
| PatchCoverage.FirstIndexIsFirst | dist/index.js:49 | no index before it holds an equal line |
| PatchCoverage.CursorAt | src/index.ts:74 | the line number after a stretch of the hunk lies between the new start and the new start plus the stretch's length |
| PatchCoverage.HunkEnd | src/index.ts:66-67 | the hunk scan stops at the first `@@` or `diff --git` line after its start, or at the end, and no line before that is a boundary |
| PatchCoverage.ScanHunk | src/index.ts:65-75 | a hunk never counts more uncovered lines than added ones |
| PatchCoverage.Run | src/index.ts:56-78 | after any prefix of the lines that does not throw, uncovered is at most added |
| PatchCoverage.Calculate | src/index.ts:38-81 | a result that does not throw has at most as many uncovered lines as added ones |
| PatchCoverage.FilePath | src/index.ts:58-59 | `line.split(" ")[2].replace("b/", "")`, or the TypeError; FilePathMissingIff states when it throws, and FilePathIsOldSide what it gives on git's file headers |
| PatchCoverage.LookupKey | src/index.ts:70 | `currentFile \|\| ""`: the key is the current file, and `""` before any `diff --git` line |
| PatchCoverage.IsUncovered | src/index.ts:70 | `!coveredLines.get(key)?.has(lineNumber)`: a line is uncovered when its file has no entry or the entry lacks the line number; ScanHunkClosedForm states what the scan counts with it |
| PatchCoverage.Step | src/index.ts:56-77 | one iteration of the outer loop; StepFault states when it throws, StepFile what it does to the current file, and StepCounts what it adds to the counters |
| PatchCoverage.RunFailurePersists | dist/index.js:41-42 | once `parts[2].replace` has thrown, the function's outcome is that error |
| PatchCoverage.RunNext | src/index.ts:56 | each iteration of the outer loop is one Step on the state after the lines before it |
| PatchCoverage.StepIgnoresOtherLines | src/index.ts:56-60 | a line that is neither `diff --git` nor a matching `@@` line, such as a `+++` marker, leaves the current file and the counters unchanged |
| PatchCoverage.ScanHunkLines | dist/index.js:48-60 | the inner loop adds exactly the hunk scan's counts to the two counters, looking lines up under `currentFile \|\| ""` |
| PatchCoverage.ScanDiffLines | dist/index.js:35-63 | the outer loop returns exactly the result of Run over all lines: the counters, or the TypeError at the first short `diff --git` line |
| PatchCoverage.CalculatePatchCoverage | src/index.ts:38-81 | the whole function equals Calculate on its inputs, with at most as many uncovered lines as added ones |
| PatchCoverageProperties.CursorCountsNonRemoved | src/index.ts:74 | the line number is the new start plus the number of lines not starting with `-` that the scan has passed |
| PatchCoverageProperties.ScanHunkClosedForm | src/index.ts:65-75 | a hunk scan counts exactly the set of `+` lines before its end and, among them, exactly those whose new-file line number is uncovered for the key |
| PatchCoverageProperties.ScanHunkLocal | src/index.ts:66-67 | a hunk scan depends only on the lines up to the boundary where it stops |
| PatchCoverageProperties.ScanHunkMonotone | src/index.ts:70 | with a covered-line map covering at least as much, a hunk counts the same added lines and no more uncovered ones |
| PatchCoverageProperties.FilePathMissingIff | src/index.ts:58-59 | `parts[2]` is undefined exactly when the line holds fewer than two spaces |
| PatchCoverageProperties.FirstBadHeader | src/index.ts:57-59 | the index it reports is the first `diff --git` line too short for `parts[2]` |
| PatchCoverageProperties.StepFault | src/index.ts:57-59 | one iteration throws exactly on a short `diff --git` line, and reports its index |
| PatchCoverageProperties.StepCounts | src/index.ts:60-76 | an iteration that does not throw adds a hunk scan's counts when it opens one, and nothing otherwise |
| PatchCoverageProperties.StepFile | src/index.ts:57-59 | an iteration that does not throw sets the current file to the path read from a `diff --git` line, and keeps it on every other line |
| PatchCoverageProperties.RunFaultIffBadHeader | src/index.ts:56-59 | the computation throws exactly when some `diff --git` line is too short, and the error names the first such line |
| PatchCoverageProperties.LastFileHeader | src/index.ts:57-59 | the index it reports is the last `diff --git` line before the given point |
| PatchCoverageProperties.RunCurrentFileIsLastHeader | src/index.ts:54-59 | the current file is the path read from the last `diff --git` line so far, and `null` before any |
| PatchCoverageProperties.StepMonotone | src/index.ts:70 | one iteration with more coverage throws alike, keeps the same file and added count, and has no more uncovered lines |
| PatchCoverageProperties.RunCoverageMonotone | src/index.ts:70-72 | adding coverage never changes whether the computation throws or how many lines are added, and never raises the uncovered count |
| PatchCoverageProperties.ScanContextToAdded | src/index.ts:65-75 | turning a context line the scan passes into a `+` line adds exactly one added line, and one uncovered line exactly when the line number at that point is not covered |
| PatchCoverageProperties.ScanNotPassing | src/index.ts:65-67 | a scan that does not pass the edited index counts the same, whatever non-boundary line is put there |
| PatchCoverageProperties.ScanContextToAddedGrows | src/index.ts:65-75 | under that edit every hunk scan raises or holds both counts, the uncovered one by no more than the added one |
| PatchCoverageProperties.StepContextToAdded | src/index.ts:56-77 | under that edit one iteration throws alike, sets the same file, and keeps the counts growing |
| PatchCoverageProperties.RunContextToAdded | src/index.ts:52-78 | under that edit the outer loop throws alike on every prefix, keeps the same current file, and raises or holds both counts |
| PatchCoverageProperties.CalculateContextToAdded | src/index.ts:38-81 | on newline-free lines, the whole computation on the edited diff throws alike and otherwise raises or holds both counts |
| PatchCoverageProperties.InsertedLineShifts | src/index.ts:68-74 | inserting a `+` line before a `+`, ` `, `+` stretch with the second and fourth new lines covered turns (2 added, 2 uncovered) into (3, 1) |
| PatchCoverageProperties.InsertedLineCanLowerUncovered | src/index.ts:68-74 | on `+a`, ` c`, `+b` from line 1 with lines 2 and 4 covered, putting `+x` first lowers the uncovered count from 2 to 1 |
| PatchCoverageProperties.RunCountsOnlyInScans | src/index.ts:60-63 | without a matching hunk header, both counters stay zero |
| PatchCoverageProperties.MarkerOutsideScan | src/index.ts:65-67 | when every `+` line is a file marker, meaning it comes after a `diff --git` line with no `@@` line between them, a scan that starts after a `@@` line finds no `+` line, because it stops at the `diff --git` line that precedes any marker |
| PatchCoverageProperties.ScanOnlyMarkers | src/index.ts:65-75 | on such a diff, every hunk scan counts nothing |
| PatchCoverageProperties.StepOnlyMarkers | src/index.ts:56-77 | on such a diff, an iteration that does not throw leaves the counters as they were |
| PatchCoverageProperties.RunOnlyMarkers | src/index.ts:52-78 | on a diff whose only `+` lines are `+++` file markers, both counters stay zero as long as the loop does not throw, however often a hunk is re-scanned |
| PatchCoverageProperties.CalculateOnlyMarkers | src/index.ts:38-81 | a diff with no `+` line outside its file markers gives 0 added lines, so the ratio is 0 / 0 |
| PatchCoverageProperties.ScanLineNotInFileHeader | src/index.ts:65-67 | on every diff, no line that a scan after a `@@` line passes follows a `diff --git` line with no `@@` line between them |
| PatchCoverageProperties.ScanCountsNoMarker | src/index.ts:65-73 | on every diff, a scan after a `@@` line counts exactly its `+` lines that are not file markers, so no `+++` marker is ever counted |
| PatchCoverageProperties.ScanStartIsFirstCopy | src/index.ts:65 | the scan of the header at i starts at or before i + 1, and exactly there when no earlier line equals that header |
| PatchCoverageProperties.CalculateOnLines | src/index.ts:51 | on the text obtained by joining newline-free lines with `"\n"`, the computation is the outer loop over exactly those lines |
| CorrectedCoverage.FixedFilePathRoundTrip | src/index.ts:59 | the corrected reading of `diff --git a/<path> b/<path>` gives back the path |
| CorrectedCoverage.FilePathOfGitHeader | src/index.ts:58-59 | as written, the file of such a line is the old-side token `a/<path>` with its first `b/` removed |
| CorrectedCoverage.FixedFilePath | src/index.ts:59 | the corrected reading, the fourth token without its `b/`; FixedFilePathRoundTrip states that it gives back the path of git's file header |
| CorrectedCoverage.FixedStep | src/index.ts:56-77 | one corrected iteration, which scans from the line after its own header; FixedStepEffect states the file it sets and the counts it adds |
| CorrectedCoverage.FixedRun | src/index.ts:56-78 | after any prefix of the lines that does not throw, the corrected computation has at most as many uncovered lines as added ones |
| CorrectedCoverage.FixedCalculate | src/index.ts:38-81 | a successful corrected result has at most as many uncovered lines as added ones |
| CorrectedCoverage.OwnerInHunk | src/index.ts:65-67 | a `+` line belongs to a matching header's hunk exactly when it lies between that header and the hunk's end |
| CorrectedCoverage.FixedRunCountsHunkLines | src/index.ts:56-78 | corrected, the computation counts exactly the `+` lines inside the hunks of the matching headers, and among them exactly those uncovered for the hunk's file; its current file is the new-side path of the last `diff --git` line |
| Findings.FilePathIsOldSide | src/index.ts:58-59 | as written, for a path without `b/`, the current file of `diff --git a/<path> b/<path>` is `a/<path>` |
| Findings.OldSidePathAsWritten | src/index.ts:59 | as written, a one-file diff whose only added line is covered reports it uncovered |
| Findings.OldSidePathCorrected | src/index.ts:59 | corrected, the same diff reports the line covered |
| Findings.OldSidePathCounterexample | src/index.ts:59 | on the `a.txt` example, as written gives (1 added, 1 uncovered) and corrected gives (1, 0) |
| Findings.DuplicateHeaderAsWritten | src/index.ts:65 | as written, when two files' hunks have equal headers, the second hunk is never scanned and the first is counted twice |
| Findings.DuplicateHeaderCorrected | src/index.ts:65 | corrected, each of the three added lines of that diff is counted once |
| Findings.DuplicateHeaderCounterexample | src/index.ts:65 | on files `x` and `y` both with `@@ -1 +1 @@`, as written gives (2, 2) and corrected gives (3, 3) |

## Left out

- `parseCoverage`, `getDiff` and `main`, and `parseLcov`, the loader of the compiled copy (dist/index.js:9-18): they read the coverage file line by line, call git, read the command line and print, which is I/O. The model takes the parsed records and the diff text as values.
- The returned value `uncoveredAddedLines / addedLines`: floating-point division, the `NaN` it gives when no line is added, and the `toFixed(2)` percentage are not modelled. The model returns the two counts it divides.
- CalculatePatchCoverage: does not model JavaScript's number precision. The counters and line numbers are unbounded integers, where the source's counters are doubles that stop counting exactly past 2^53.
- HunkHeader.Exec: models the one pattern the function uses, not regular expressions in general. It reads `\d` as `[0-9]`, which is what `\d` means in JavaScript with or without the `u` flag.
- CorrectedCoverage.FixedFilePath: gives back the path only when the path holds no space. Git writes such paths unquoted on the `diff --git` line, and then the fourth space-separated token is only part of the path. The corrected reading, like the code, splits on every space.
- Inserting a `+` line into a hunk: the model does not promise that this raises or holds the uncovered count, because it can lower it. The inserted line pushes the new-file number of every later line down by one. With lines 2 and 4 covered, the hunk `+a`, ` c`, `+b` from line 1 gives 2 added and 2 uncovered, and with `+x` put first 3 added and 1 uncovered (PatchCoverageProperties.InsertedLineCanLowerUncovered). The edit proved monotone is the one that moves no line number, a context line turned into a `+` line (PatchCoverageProperties.RunContextToAdded).
- Strings are sequences of characters. UTF-16 surrogate pairs are not singled out; the source never looks inside a character.
- The `found` and `hit` fields of a record's `lines` are carried but never read, as in the source.
- The diff passed in standing for git's output: the model does not check that it is a well-formed diff, just as the function does not.

## Findings

| source | as written | input that shows it | evidently intended | confidence | as-written member | corrected member |
|---|---|---|---|---|---|---|
| src/index.ts:59 | `parts[2].replace("b/", "")` takes the old-side token `a/<path>`, and removing `b/` leaves it unchanged, so every added line is looked up under a key that names no file and counts as uncovered | `diff --git a/a.txt b/a.txt`, `@@ -1,2 +1,3 @@`, ` line1`, `+line2`, ` line3` with `a.txt` covering line 2: 1 added, 1 uncovered | the new-side token `parts[3]` without its leading `b/`, giving 1 added and 0 uncovered (for paths without spaces) | not executed | Findings.OldSidePathAsWritten | Findings.OldSidePathCorrected |
| src/index.ts:65 | `diffLines.indexOf(line) + 1` starts the hunk scan after the first line equal to the header, so a hunk whose header repeats an earlier one re-scans the earlier hunk | `diff --git a/x b/x`, `@@ -1 +1 @@`, `+b`, `diff --git a/y b/y`, `@@ -1 +1 @@`, `+p`, `+q` with no coverage: 2 added, 2 uncovered | scanning from the line after the header itself, giving 3 added and 3 uncovered | not executed | Findings.DuplicateHeaderAsWritten | Findings.DuplicateHeaderCorrected |
