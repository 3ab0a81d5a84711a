/**
 * The per-file coverage records the calculator receives, and the map it
 * builds from them: for each file, the line numbers that were executed at
 * least once.
 */
module Coverage {

  /** One `{ line, hit }` entry of a record's `lines.details`. */
  datatype LineDetail = LineDetail(line: int, hit: int)

  /** The `lines` part of a record; `found` and `hit` are carried but never read by the calculator. */
  datatype LineSummary = LineSummary(found: int, hit: int, details: seq<LineDetail>)

  /** One coverage record: a file and its per-line hit counts. */
  datatype FileCoverage = FileCoverage(file: string, lines: LineSummary)

  /** `Map<string, Set<number>>`: file to the set of its covered line numbers. */
  type CoveredLines = map<string, set<int>>

  /** The line numbers of `details` whose hit count is positive. */
  function HitLines(details: seq<LineDetail>): (covered: set<int>)
    ensures forall n :: n in covered <==>
      exists k :: 0 <= k < |details| && details[k].line == n && details[k].hit > 0
  {
    if |details| == 0 then {}
    else
      var last := details[|details| - 1];
      var prefix := details[..|details| - 1];
      var covered := HitLines(prefix) + (if last.hit > 0 then {last.line} else {});
      assert forall k :: 0 <= k < |prefix| ==> prefix[k] == details[k];
      covered
  }

  /** The record at index `k` is the last one in `coverage` for its file. */
  predicate IsLastFor(coverage: seq<FileCoverage>, k: nat)
    requires k < |coverage|
  {
    forall k' :: k < k' < |coverage| ==> coverage[k'].file != coverage[k].file
  }

  /**
   * The covered-line map of a list of records: one entry per file named in
   * the list, holding the hit lines of the LAST record for that file.
   */
  function CoveredMap(coverage: seq<FileCoverage>): (m: CoveredLines)
    ensures m.Keys == set k | 0 <= k < |coverage| :: coverage[k].file
    ensures forall k :: 0 <= k < |coverage| && IsLastFor(coverage, k) ==>
      m[coverage[k].file] == HitLines(coverage[k].lines.details)
  {
    if |coverage| == 0 then map[]
    else
      var last := coverage[|coverage| - 1];
      var prefix := coverage[..|coverage| - 1];
      assert forall k :: 0 <= k < |prefix| ==> prefix[k] == coverage[k];
      assert forall k :: 0 <= k < |prefix| && IsLastFor(coverage, k) ==> IsLastFor(prefix, k);
      assert (set k | 0 <= k < |coverage| :: coverage[k].file)
          == (set k | 0 <= k < |prefix| :: prefix[k].file) + {last.file};
      CoveredMap(prefix)[last.file := HitLines(last.lines.details)]
  }

  /** Fills the covered-line map record by record, detail by detail. */
  method BuildCoveredLines(coverage: seq<FileCoverage>) returns (coveredLines: CoveredLines)
    ensures coveredLines == CoveredMap(coverage)
  {
    coveredLines := map[];
    for i := 0 to |coverage|
      invariant coveredLines == CoveredMap(coverage[..i])
    {
      var fileCoverage := coverage[i];
      var details := fileCoverage.lines.details;
      var covered: set<int> := {};
      for k := 0 to |details|
        invariant covered == HitLines(details[..k])
      {
        var detail := details[k];
        if detail.hit > 0 {
          covered := covered + {detail.line};
        }
        assert details[..k + 1][..k] == details[..k];
      }
      assert details[..|details|] == details;
      coveredLines := coveredLines[fileCoverage.file := covered];
      assert coverage[..i + 1][..i] == coverage[..i];
    }
    assert coverage[..|coverage|] == coverage;
  }
}
