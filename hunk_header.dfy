/**
 * The hunk-header pattern `@@ -\d+(,\d+)? \+(\d+)(,\d+)? @@`, searched for
 * anywhere in a line as `RegExp.prototype.exec` does, and `parseInt(_, 10)`
 * of its second capture group: the new-file start line of the hunk.
 *
 * The pattern needs no backtracking: every `\d+` is followed by a character
 * that is not a digit (`,` or ` `), so each digit run is maximal, and an
 * optional `(,\d+)` group that is skipped leaves a `,` where a ` ` is
 * required. So at each start position the match, if any, is unique, and
 * the greedy step-by-step reading below is exactly the regular expression's.
 */
module HunkHeader {
  import opened Wrappers
  import opened Strings

  /** `\d`: an ASCII decimal digit, `[0-9]` with or without the `u` flag. */
  predicate IsDigit(c: char) {
    '0' <= c <= '9'
  }

  predicate AllDigits(s: string) {
    forall i :: 0 <= i < |s| ==> IsDigit(s[i])
  }

  /** `parseInt(digits, 10)` of a string of decimal digits. */
  function DecimalValue(digits: string): nat
    requires AllDigits(digits)
  {
    if |digits| == 0 then 0
    else
      DecimalValue(digits[..|digits| - 1]) * 10
      + (digits[|digits| - 1] as int - '0' as int)
  }

  /** The digit character for `d`. */
  function DigitChar(d: nat): (c: char)
    requires d < 10
    ensures IsDigit(c) && c as int - '0' as int == d
  {
    ('0' as int + d) as char
  }

  /** The decimal text of `n`, as `String(n)` writes it. */
  function Decimal(n: nat): (digits: string)
    ensures |digits| >= 1 && AllDigits(digits)
    ensures DecimalValue(digits) == n
  {
    if n < 10 then [DigitChar(n)]
    else
      var digits := Decimal(n / 10) + [DigitChar(n % 10)];
      assert digits[..|digits| - 1] == Decimal(n / 10);
      digits
  }

  /** The length of the maximal run of digits at the front of `t`. */
  function DigitPrefix(t: string): (k: nat)
    ensures k <= |t|
  {
    if |t| > 0 && IsDigit(t[0]) then 1 + DigitPrefix(t[1..]) else 0
  }

  /** DigitPrefix is the length of the maximal leading digit run. */
  lemma {:induction false} DigitPrefixSpec(t: string)
    ensures AllDigits(t[..DigitPrefix(t)])
    ensures DigitPrefix(t) == |t| || !IsDigit(t[DigitPrefix(t)])
    decreases |t|
  {
    if |t| > 0 && IsDigit(t[0]) {
      DigitPrefixSpec(t[1..]);
      var k := DigitPrefix(t);
      assert t[..k] == [t[0]] + t[1..][..k - 1];
    }
  }

  /** What is left of `t` after an optional `(,\d+)` group at its front. */
  function SkipLength(t: string): (rest: string)
  {
    if |t| > 0 && t[0] == ',' && DigitPrefix(t[1..]) > 0 then t[1..][DigitPrefix(t[1..])..] else t
  }

  /**
   * Reads `\d+(,\d+)?` at the front of `t`: the first digit run and what
   * follows the optional length.
   */
  function ReadRange(t: string): (r: Option<(string, string)>)
    ensures r.Some? ==> |r.value.0| >= 1 && AllDigits(r.value.0)
  {
    var k := DigitPrefix(t);
    DigitPrefixSpec(t);
    if k == 0 then None else Some((t[..k], SkipLength(t[k..])))
  }

  /** What follows `@@ -<start>[,<length>]` at the front of `t`, if `t` begins that way. */
  function AfterOldRange(t: string): Option<string> {
    if !StartsWith(t, "@@ -") then None
    else
      match ReadRange(t[4..])
      case None => None
      case Some((_, rest)) => Some(rest)
  }

  /**
   * Whether the pattern matches at the front of `t`, and if so the text of
   * its second group, the digits of the hunk's new-file start line.
   */
  function MatchPrefix(t: string): (group: Option<string>)
    ensures group.Some? ==> |group.value| >= 1 && AllDigits(group.value)
  {
    match AfterOldRange(t)
    case None => None
    case Some(afterOld) =>
      if !StartsWith(afterOld, " +") then None
      else
        match ReadRange(afterOld[2..])
        case None => None
        case Some((newStart, afterNew)) =>
          if StartsWith(afterNew, " @@") then Some(newStart) else None
  }

  /** Whether the pattern matches at the front of `t`. */
  predicate Matches(t: string) {
    MatchPrefix(t).Some?
  }

  /** The leftmost position at or after `from` where the pattern matches, with the text of its group 2. */
  function LeftmostMatch(s: string, from: nat): (m: Option<(nat, string)>)
    requires from <= |s|
    ensures m.Some? ==> AllDigits(m.value.1)
    decreases |s| - from
  {
    match MatchPrefix(s[from..])
    case Some(group) => Some((from, group))
    case None => if from == |s| then None else LeftmostMatch(s, from + 1)
  }

  /** What LeftmostMatch reports is a match, at a position at or after `from`. */
  lemma {:induction false} LeftmostMatchFound(s: string, from: nat)
    requires from <= |s| && LeftmostMatch(s, from).Some?
    ensures from <= LeftmostMatch(s, from).value.0 <= |s|
    ensures MatchPrefix(s[LeftmostMatch(s, from).value.0..]) == Some(LeftmostMatch(s, from).value.1)
    decreases |s| - from
  {
    if MatchPrefix(s[from..]).None? {
      LeftmostMatchFound(s, from + 1);
    }
  }

  /** No position between `from` and the one LeftmostMatch picks (or the end, if none) matches. */
  lemma {:induction false} LeftmostMatchIsLeftmost(s: string, from: nat, q: nat)
    requires from <= q <= |s|
    requires LeftmostMatch(s, from).None? || q < LeftmostMatch(s, from).value.0
    ensures !Matches(s[q..])
    decreases q - from
  {
    if q > from {
      LeftmostMatchIsLeftmost(s, from + 1, q);
    }
  }

  /** `exec(line)` followed by `parseInt(match[2], 10)`; None when the line does not match. */
  function Exec(line: string): Option<nat> {
    match LeftmostMatch(line, 0)
    case None => None
    case Some((_, group)) => Some(DecimalValue(group))
  }

  /** The text of an optional `,<length>` part of a header. */
  function LengthText(length: Option<nat>): string {
    match length
    case None => ""
    case Some(n) => "," + Decimal(n)
  }

  /** The header `@@ -<oldStart>[,<oldLength>] +<newStart>[,<newLength>] @@` that git writes. */
  function HeaderText(oldStart: nat, oldLength: Option<nat>, newStart: nat, newLength: Option<nat>): string {
    "@@ -" + Decimal(oldStart) + LengthText(oldLength) + " +" + Decimal(newStart) + LengthText(newLength) + " @@"
  }

  /** A digit string followed by a non-digit (or nothing) is the whole leading digit run. */
  lemma {:induction false} DigitPrefixOf(digits: string, rest: string)
    requires AllDigits(digits)
    requires rest == "" || !IsDigit(rest[0])
    ensures DigitPrefix(digits + rest) == |digits|
    ensures (digits + rest)[..|digits|] == digits && (digits + rest)[|digits|..] == rest
    decreases |digits|
  {
    if |digits| > 0 {
      assert (digits + rest)[1..] == digits[1..] + rest;
      DigitPrefixOf(digits[1..], rest);
    }
  }

  /** The shape of an optional `(,\d+)` part: empty, or a comma and at least one digit. */
  predicate LengthShaped(l: string) {
    l == "" || (|l| >= 2 && l[0] == ',' && AllDigits(l[1..]))
  }

  lemma {:induction false} LengthTextShaped(length: Option<nat>)
    ensures LengthShaped(LengthText(length))
  {
    if length.Some? {
      assert LengthText(length)[1..] == Decimal(length.value);
    }
  }

  /** An optional length part followed by a space is skipped exactly. */
  lemma {:induction false} SkipLengthOf(l: string, rest: string)
    requires LengthShaped(l)
    requires |rest| > 0 && rest[0] == ' '
    ensures SkipLength(l + rest) == rest
  {
    if l != "" {
      assert (l + rest)[1..] == l[1..] + rest;
      DigitPrefixOf(l[1..], rest);
    } else {
      assert l + rest == rest;
    }
  }

  /** A range as git writes it, followed by a space, is read exactly. */
  lemma {:induction false} ReadRangeOf(digits: string, l: string, rest: string)
    requires |digits| >= 1 && AllDigits(digits) && LengthShaped(l)
    requires |rest| > 0 && rest[0] == ' '
    ensures ReadRange(digits + (l + rest)) == Some((digits, rest))
  {
    assert !IsDigit((l + rest)[0]) by {
      if l != "" { assert (l + rest)[0] == l[0]; }
    }
    DigitPrefixOf(digits, l + rest);
    SkipLengthOf(l, rest);
  }

  /**
   * Any header git writes, with or without a trailing section heading,
   * matches at its first character and yields its new-file start line.
   */
  lemma {:induction false} HeaderRoundTrip(oldStart: nat, oldLength: Option<nat>, newStart: nat, newLength: Option<nat>, heading: string)
    ensures Exec(HeaderText(oldStart, oldLength, newStart, newLength) + heading) == Some(newStart)
  {
    var s := HeaderText(oldStart, oldLength, newStart, newLength) + heading;
    HeaderMatchesAtStart(oldStart, oldLength, newStart, newLength, heading);
    assert s[0..] == s;
    assert DecimalValue(Decimal(newStart)) == newStart;
  }

  /** The pattern matches a git header at its first character, capturing the new start's digits. */
  lemma {:induction false} HeaderMatchesAtStart(oldStart: nat, oldLength: Option<nat>, newStart: nat, newLength: Option<nat>, heading: string)
    ensures MatchPrefix(HeaderText(oldStart, oldLength, newStart, newLength) + heading) == Some(Decimal(newStart))
  {
    var d1, l1, d2, l2 := Decimal(oldStart), LengthText(oldLength), Decimal(newStart), LengthText(newLength);
    LengthTextShaped(oldLength);
    LengthTextShaped(newLength);
    var afterNew := " @@" + heading;
    var afterOld := " +" + (d2 + (l2 + afterNew));
    var s := "@@ -" + (d1 + (l1 + afterOld));
    assert s == HeaderText(oldStart, oldLength, newStart, newLength) + heading;
    HeaderPieces(d1, l1, d2, l2, afterNew);
  }

  /** The same fact over abstract pieces, so that no decimal arithmetic is in view. */
  lemma {:induction false} HeaderPieces(d1: string, l1: string, d2: string, l2: string, afterNew: string)
    requires |d1| >= 1 && AllDigits(d1) && |d2| >= 1 && AllDigits(d2)
    requires LengthShaped(l1) && LengthShaped(l2) && StartsWith(afterNew, " @@")
    ensures MatchPrefix("@@ -" + (d1 + (l1 + (" +" + (d2 + (l2 + afterNew)))))) == Some(d2)
  {
    var afterOld := " +" + (d2 + (l2 + afterNew));
    var s := "@@ -" + (d1 + (l1 + afterOld));
    assert StartsWith(s, "@@ -") && s[4..] == d1 + (l1 + afterOld);
    ReadRangeOf(d1, l1, afterOld);
    assert AfterOldRange(s) == Some(afterOld);
    assert StartsWith(afterOld, " +") && afterOld[2..] == d2 + (l2 + afterNew);
    ReadRangeOf(d2, l2, afterNew);
  }

  /** Exec finds a match exactly when the pattern matches at some position of the line. */
  lemma {:induction false} ExecFindsAnyMatch(line: string)
    ensures Exec(line).Some? <==> exists q: nat :: q <= |line| && Matches(line[q..])
  {
    if Exec(line).Some? {
      LeftmostMatchFound(line, 0);
    } else {
      forall q: nat | q <= |line|
        ensures !Matches(line[q..])
      {
        LeftmostMatchIsLeftmost(line, 0, q);
      }
    }
  }

  /** What ReadRange leaves is a suffix of its input. */
  lemma {:induction false} ReadRangeSuffix(t: string)
    requires ReadRange(t).Some?
    ensures exists k: nat :: k <= |t| && ReadRange(t).value.1 == t[k..]
  {
    var d := DigitPrefix(t);
    var u := t[d..];
    if |u| > 0 && u[0] == ',' && DigitPrefix(u[1..]) > 0 {
      assert SkipLength(u) == t[d + 1 + DigitPrefix(u[1..])..];
    } else {
      assert SkipLength(u) == t[d..];
    }
  }

  /** A match has its old-file range followed by " +". */
  lemma {:induction false} MatchHasAfterOld(t: string)
    requires Matches(t)
    ensures AfterOldRange(t).Some? && StartsWith(AfterOldRange(t).value, " +")
  {
  }

  /** A pattern at the front of a suffix of `s` occurs in `s`. */
  lemma {:induction false} OccursInSuffix(s: string, k: nat, pat: string)
    requires k <= |s| && StartsWith(s[k..], pat)
    ensures OccursAt(s, pat, k)
  {
    assert s[k..k + |pat|] == s[k..][..|pat|];
  }

  /** An occurrence in a suffix of `s` is an occurrence in `s`. */
  lemma {:induction false} OccursShift(s: string, q: nat, pat: string, i: nat)
    requires q <= |s| && OccursAt(s[q..], pat, i)
    ensures OccursAt(s, pat, q + i)
  {
    assert s[q..][i..i + |pat|] == s[q + i..q + i + |pat|];
  }

  /** Every match contains the " +" that introduces the new-file range. */
  lemma {:induction false} MatchHasNewRange(t: string)
    requires Matches(t)
    ensures exists i: nat :: OccursAt(t, " +", i)
  {
    MatchHasAfterOld(t);
    var u := t[4..];
    assert ReadRange(u).Some? && AfterOldRange(t).value == ReadRange(u).value.1;
    ReadRangeSuffix(u);
    var k: nat :| k <= |u| && ReadRange(u).value.1 == u[k..];
    assert u[k..] == t[4 + k..];
    OccursInSuffix(t, 4 + k, " +");
  }

  /** A line with no " +" anywhere (a header missing its new-file range) never matches. */
  lemma {:induction false} NoMatchWithoutNewRange(line: string)
    requires forall q: nat :: !OccursAt(line, " +", q)
    ensures Exec(line) == None
  {
    forall q: nat | q <= |line|
      ensures !Matches(line[q..])
    {
      NoMatchAt(line, q);
    }
    ExecFindsAnyMatch(line);
  }

  lemma {:induction false} NoMatchAt(line: string, q: nat)
    requires q <= |line|
    requires forall q: nat :: !OccursAt(line, " +", q)
    ensures !Matches(line[q..])
  {
    if Matches(line[q..]) {
      MatchHasNewRange(line[q..]);
      var i: nat :| OccursAt(line[q..], " +", i);
      OccursShift(line, q, " +", i);
    }
  }
}
