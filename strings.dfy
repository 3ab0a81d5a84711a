/**
 * The string operations the calculator relies on, as JavaScript defines them
 * for the cases it uses: `startsWith`, `split` on a one-character separator,
 * `indexOf` of a substring and `replace` of the first occurrence of a
 * substring pattern.
 */
module Strings {
  import opened Wrappers

  /** `s.startsWith(prefix)`. */
  predicate StartsWith(s: string, prefix: string) {
    |prefix| <= |s| && s[..|prefix|] == prefix
  }

  /** `pat` occurs in `s` beginning at index `i`. */
  predicate OccursAt(s: string, pat: string, i: nat) {
    i + |pat| <= |s| && s[i..i + |pat|] == pat
  }

  /** `parts.join(sep)`: the parts with one separator between neighbours. */
  function Join(parts: seq<string>, sep: char): string {
    if |parts| == 0 then ""
    else if |parts| == 1 then parts[0]
    else parts[0] + [sep] + Join(parts[1..], sep)
  }

  /**
   * `s.split(sep)` for a one-character separator: the maximal separator-free
   * pieces of `s`, one more than there are separators (so "" splits into [""]
   * and a trailing separator yields a trailing "").
   */
  function Split(s: string, sep: char): (parts: seq<string>)
    ensures |parts| >= 1
    decreases |s|
  {
    if |s| == 0 then [""]
    else
      var rest := Split(s[1..], sep);
      if s[0] == sep then [""] + rest else [[s[0]] + rest[0]] + rest[1..]
  }

  /**
   * Split gives one more piece than there are separators, no piece holds
   * the separator, and joining the pieces gives back `s`.
   */
  lemma {:induction false} SplitSpec(s: string, sep: char)
    ensures |Split(s, sep)| == multiset(s)[sep] + 1
    ensures forall i :: 0 <= i < |Split(s, sep)| ==> sep !in Split(s, sep)[i]
    ensures Join(Split(s, sep), sep) == s
    decreases |s|
  {
    if |s| > 0 {
      SplitSpec(s[1..], sep);
      if s[0] == sep {
        SplitStepSep(s, sep, Split(s[1..], sep));
      } else {
        SplitStepOther(s, sep, Split(s[1..], sep));
      }
    }
  }

  /** The inductive step of Split at a separator: a new empty first piece. */
  lemma {:induction false} SplitStepSep(s: string, sep: char, rest: seq<string>)
    requires |s| > 0 && s[0] == sep && |rest| == multiset(s[1..])[sep] + 1
    requires forall i :: 0 <= i < |rest| ==> sep !in rest[i]
    requires Join(rest, sep) == s[1..]
    ensures |[""] + rest| == multiset(s)[sep] + 1
    ensures forall i :: 0 <= i < |[""] + rest| ==> sep !in ([""] + rest)[i]
    ensures Join([""] + rest, sep) == s
  {
    assert s == [s[0]] + s[1..];
    assert multiset(s) == multiset([s[0]]) + multiset(s[1..]);
    assert ([""] + rest)[1..] == rest;
  }

  /** The inductive step of Split at another character: it joins the first piece. */
  lemma {:induction false} SplitStepOther(s: string, sep: char, rest: seq<string>)
    requires |s| > 0 && s[0] != sep && |rest| == multiset(s[1..])[sep] + 1
    requires forall i :: 0 <= i < |rest| ==> sep !in rest[i]
    requires Join(rest, sep) == s[1..]
    ensures var parts := [[s[0]] + rest[0]] + rest[1..];
      && |parts| == multiset(s)[sep] + 1
      && (forall i :: 0 <= i < |parts| ==> sep !in parts[i])
      && Join(parts, sep) == s
  {
    var parts := [[s[0]] + rest[0]] + rest[1..];
    assert s == [s[0]] + s[1..];
    assert multiset(s) == multiset([s[0]]) + multiset(s[1..]);
    assert |parts| == |rest|;
    SplitOtherSepFree(s[0], sep, rest);
    SplitOtherJoin(s, sep, rest);
  }

  /** Gluing a non-separator onto the first piece keeps every piece separator-free. */
  lemma {:induction false} SplitOtherSepFree(c: char, sep: char, rest: seq<string>)
    requires c != sep && |rest| >= 1
    requires forall i :: 0 <= i < |rest| ==> sep !in rest[i]
    ensures var parts := [[c] + rest[0]] + rest[1..];
            forall i :: 0 <= i < |parts| ==> sep !in parts[i]
  {
    var parts := [[c] + rest[0]] + rest[1..];
    forall i | 0 <= i < |parts| ensures sep !in parts[i] {
      if i == 0 {
        assert sep !in rest[0];
      } else {
        assert parts[i] == rest[i];
      }
    }
  }

  /** Gluing the first character onto the first piece joins back to the whole string. */
  lemma {:induction false} SplitOtherJoin(s: string, sep: char, rest: seq<string>)
    requires |s| > 0 && |rest| >= 1 && Join(rest, sep) == s[1..]
    ensures Join([[s[0]] + rest[0]] + rest[1..], sep) == s
  {
    var parts := [[s[0]] + rest[0]] + rest[1..];
    assert parts[1..] == rest[1..];
    if |rest| > 1 {
      assert Join(rest, sep) == rest[0] + [sep] + Join(rest[1..], sep);
      assert Join(parts, sep) == ([s[0]] + rest[0]) + [sep] + Join(rest[1..], sep);
    } else {
      assert Join(parts, sep) == [s[0]] + rest[0];
    }
    assert s == [s[0]] + s[1..];
  }

  /** Splitting a string whose first `|a|` characters hold no separator glues `a` onto the first piece. */
  lemma {:induction false} SplitAfterSepFree(a: string, b: string, sep: char)
    requires sep !in a
    ensures Split(a + b, sep) == [a + Split(b, sep)[0]] + Split(b, sep)[1..]
    decreases |a|
  {
    var tail := Split(b, sep);
    if |a| == 0 {
      assert a + b == b;
      assert a + tail[0] == tail[0];
      assert [tail[0]] + tail[1..] == tail;
    } else {
      assert (a + b)[1..] == a[1..] + b;
      SplitAfterSepFree(a[1..], b, sep);
      SplitNonSep(a + b, sep);
      ConsAppend(a, tail[0]);
    }
  }

  /** One unfolding of Split at a first character that is not the separator. */
  lemma {:induction false} SplitNonSep(s: string, sep: char)
    requires |s| > 0 && s[0] != sep
    ensures Split(s, sep) == [[s[0]] + Split(s[1..], sep)[0]] + Split(s[1..], sep)[1..]
  {
  }

  lemma {:induction false} ConsAppend(a: string, t: string)
    requires |a| > 0
    ensures [a[0]] + (a[1..] + t) == a + t
  {
    assert [a[0]] + a[1..] == a;
  }

  /** A separator-free string followed by a separator becomes one piece of its own. */
  lemma {:induction false} SplitAtSep(a: string, b: string, sep: char)
    requires sep !in a
    ensures Split(a + [sep] + b, sep) == [a] + Split(b, sep)
  {
    assert a + [sep] + b == a + ([sep] + b);
    SplitAfterSepFree(a, [sep] + b, sep);
    SplitSepFirst(b, sep);
    assert a + "" == a;
  }

  /** One unfolding of Split at a leading separator. */
  lemma {:induction false} SplitSepFirst(b: string, sep: char)
    ensures Split([sep] + b, sep) == [""] + Split(b, sep)
  {
    assert ([sep] + b)[1..] == b;
  }

  /** A separator-free string splits into itself alone. */
  lemma {:induction false} SplitSepFree(a: string, sep: char)
    requires sep !in a
    ensures Split(a, sep) == [a]
  {
    SplitAfterSepFree(a, "", sep);
    assert a + "" == a;
  }

  /** Split undoes Join, so Split's three ensures characterise its result exactly. */
  lemma {:induction false} SplitJoin(parts: seq<string>, sep: char)
    requires |parts| >= 1
    requires forall i :: 0 <= i < |parts| ==> sep !in parts[i]
    ensures Split(Join(parts, sep), sep) == parts
  {
    if |parts| == 1 {
      SplitSepFree(parts[0], sep);
    } else {
      SplitJoin(parts[1..], sep);
      SplitAtSep(parts[0], Join(parts[1..], sep), sep);
      assert [parts[0]] + parts[1..] == parts;
    }
  }

  /** `s.indexOf(pat, from)`: the first index at or after `from` where `pat` occurs. */
  function IndexOfFrom(s: string, pat: string, from: nat): (r: Option<nat>)
    requires from <= |s|
    ensures r.Some? ==> from <= r.value && OccursAt(s, pat, r.value)
    decreases |s| - from
  {
    if OccursAt(s, pat, from) then Some(from)
    else if from == |s| then None
    else IndexOfFrom(s, pat, from + 1)
  }

  /** No index from `from` up to the one IndexOfFrom finds (or the end, if none) holds `pat`. */
  lemma {:induction false} IndexOfFromIsFirst(s: string, pat: string, from: nat, j: nat)
    requires from <= j && from <= |s|
    requires IndexOfFrom(s, pat, from).None? || j < IndexOfFrom(s, pat, from).value
    ensures !OccursAt(s, pat, j)
    decreases |s| - from
  {
    if j > from && from < |s| {
      IndexOfFromIsFirst(s, pat, from + 1, j);
    }
  }

  /** `s.replace(pat, rep)` with a string pattern: only the first occurrence is replaced. */
  function ReplaceFirst(s: string, pat: string, rep: string): string {
    match IndexOfFrom(s, pat, 0)
    case None => s
    case Some(i) => s[..i] + rep + s[i + |pat|..]
  }

  /**
   * ReplaceFirst leaves `s` alone when `pat` does not occur, and otherwise
   * splices `rep` over the leftmost occurrence.
   */
  lemma {:induction false} ReplaceFirstSpec(s: string, pat: string, rep: string)
    ensures (forall j: nat :: !OccursAt(s, pat, j)) ==> ReplaceFirst(s, pat, rep) == s
    ensures forall i: nat ::
      OccursAt(s, pat, i) && (forall j: nat :: j < i ==> !OccursAt(s, pat, j))
      ==> ReplaceFirst(s, pat, rep) == s[..i] + rep + s[i + |pat|..]
  {
    var r := IndexOfFrom(s, pat, 0);
    forall i: nat | OccursAt(s, pat, i) && (forall j: nat :: j < i ==> !OccursAt(s, pat, j))
      ensures r == Some(i)
    {
      if r.None? || i < r.value {
        IndexOfFromIsFirst(s, pat, 0, i);
      }
    }
  }
}
