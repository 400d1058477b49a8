/**
 * The JavaScript regular expressions the installers use, restricted to what
 * they need: a concatenation of character classes, each taken once or one or
 * more times. `MatchAt` follows the backtracking order of a JavaScript regex
 * engine (greedy `+`, longest run first); `Scan` is the search that
 * `String.prototype.match` performs with the `g` flag (leftmost match,
 * non-overlapping, continuing after each match). `Denotes` is the
 * independent, declarative meaning of a pattern that both are proved against.
 */
module Regex {
  import opened Wrappers

  datatype CharClass =
    | Digit                   // [0-9]
    | Exactly(c: char)        // an escaped literal such as \.
    | AnyButLineTerminator    // . without the s flag

  datatype Atom = Once(cls: CharClass) | OneOrMore(cls: CharClass)

  type Pattern = seq<Atom>

  /** ECMAScript LineTerminator code points, which `.` does not match. */
  predicate IsLineTerminator(c: char) {
    c == '\n' || c == '\r' || c == '\U{2028}' || c == '\U{2029}'
  }

  predicate InClass(cls: CharClass, c: char) {
    match cls
    case Digit => '0' <= c <= '9'
    case Exactly(d) => c == d
    case AnyButLineTerminator => !IsLineTerminator(c)
  }

  predicate AllIn(cls: CharClass, w: string) {
    forall i :: 0 <= i < |w| ==> InClass(cls, w[i])
  }

  /** `w`, as a whole, is a word of the pattern `p`. */
  ghost predicate Denotes(p: Pattern, w: string)
    decreases |p|
  {
    if p == [] then w == []
    else match p[0]
      case Once(cls) => |w| > 0 && InClass(cls, w[0]) && Denotes(p[1..], w[1..])
      case OneOrMore(cls) =>
        exists k :: 1 <= k <= |w| && AllIn(cls, w[..k]) && Denotes(p[1..], w[k..])
  }

  /** Some substring of `s` is a word of `p`. */
  ghost predicate Occurs(p: Pattern, s: string) {
    exists i, j :: 0 <= i <= j <= |s| && Denotes(p, s[i..j])
  }

  /** Some substring of `s` starting at `i` or later is a word of `p`. */
  ghost predicate OccursFrom(p: Pattern, s: string, from: nat) {
    exists i, j :: from <= i <= j <= |s| && Denotes(p, s[i..j])
  }

  /** The number of characters of class `cls` in a row from position `i`: what a greedy `+` first takes. */
  function RunLength(cls: CharClass, s: string, i: nat): (n: nat)
    requires i <= |s|
    ensures i + n <= |s|
    ensures forall k :: i <= k < i + n ==> InClass(cls, s[k])
    ensures i + n == |s| || !InClass(cls, s[i + n])
    decreases |s| - i
  {
    if i < |s| && InClass(cls, s[i]) then 1 + RunLength(cls, s, i + 1) else 0
  }

  /** A run of exactly `n` characters of `cls` from `i`, ended by the end or by another character, is what `RunLength` measures. */
  lemma {:induction false} RunLengthExact(cls: CharClass, s: string, i: nat, n: nat)
    requires i + n <= |s|
    requires forall k :: i <= k < i + n ==> InClass(cls, s[k])
    requires i + n == |s| || !InClass(cls, s[i + n])
    ensures RunLength(cls, s, i) == n
    decreases n
  {
    if n > 0 {
      RunLengthExact(cls, s, i + 1, n - 1);
    }
  }

  /** The end of the match of `p` starting exactly at `i`, found as a backtracking engine finds it. */
  function MatchAt(p: Pattern, s: string, i: nat): (r: Option<nat>)
    requires i <= |s|
    ensures r.Some? ==> i <= r.value <= |s|
    decreases |p|, 0, 0
  {
    if p == [] then Some(i)
    else match p[0]
      case Once(cls) =>
        if i < |s| && InClass(cls, s[i]) then MatchAt(p[1..], s, i + 1) else None
      case OneOrMore(cls) =>
        var n := RunLength(cls, s, i);
        if n == 0 then None else Backtrack(p[1..], s, i, n)
  }

  /** Gives back one repetition at a time: the rest of the pattern is tried after k, k-1, ..., 1 repetitions. */
  function Backtrack(rest: Pattern, s: string, i: nat, k: nat): (r: Option<nat>)
    requires 1 <= k && i + k <= |s|
    ensures r.Some? ==> i + 1 <= r.value <= |s|
    decreases |rest|, 1, k
  {
    match MatchAt(rest, s, i + k)
    case Some(e) => Some(e)
    case None => if k == 1 then None else Backtrack(rest, s, i, k - 1)
  }

  /** Where a global search resumes after the match s[start..end): one further on after an empty match. */
  function Resume(start: nat, end: nat): nat {
    if end == start then start + 1 else end
  }

  /**
   * The (start, end) spans of all matches that a global search from `from`
   * finds, in order: at each position the match there is taken, if any, and
   * the search resumes after it; otherwise the search moves one on.
   */
  function Scan(p: Pattern, s: string, from: nat): seq<(nat, nat)>
    requires from <= |s| + 1
    decreases |s| + 1 - from
  {
    if from > |s| then []
    else match MatchAt(p, s, from)
      case Some(e) => [(from, e)] + Scan(p, s, Resume(from, e))
      case None => Scan(p, s, from + 1)
  }

  /**
   * Every span a search reports is a match of the engine starting at or after
   * `from`, and the spans neither overlap nor go backwards.
   */
  lemma {:induction false} ScanSpans(p: Pattern, s: string, from: nat)
    requires from <= |s| + 1
    ensures forall k :: 0 <= k < |Scan(p, s, from)| ==>
              && from <= Scan(p, s, from)[k].0 <= Scan(p, s, from)[k].1 <= |s|
              && MatchAt(p, s, Scan(p, s, from)[k].0) == Some(Scan(p, s, from)[k].1)
    ensures forall k :: 0 <= k < |Scan(p, s, from)| - 1 ==>
              Resume(Scan(p, s, from)[k].0, Scan(p, s, from)[k].1) <= Scan(p, s, from)[k + 1].0
    decreases |s| + 1 - from
  {
    if from <= |s| {
      var spans := Scan(p, s, from);
      match MatchAt(p, s, from)
      case Some(e) =>
        var next := Resume(from, e);
        var tail := Scan(p, s, next);
        ScanSpans(p, s, next);
        assert spans == [(from, e)] + tail;
        forall k | 0 <= k < |spans|
          ensures from <= spans[k].0 <= spans[k].1 <= |s| && MatchAt(p, s, spans[k].0) == Some(spans[k].1)
        {
          if k > 0 {
            assert spans[k] == tail[k - 1];
          }
        }
        forall k | 0 <= k < |spans| - 1
          ensures Resume(spans[k].0, spans[k].1) <= spans[k + 1].0
        {
          assert spans[k + 1] == tail[k];
          if k > 0 {
            assert spans[k] == tail[k - 1];
          }
        }
      case None =>
        ScanSpans(p, s, from + 1);
    }
  }

  /** `s.match(re)` for a global `re`, with `null` written as the empty sequence. */
  function MatchAll(p: Pattern, s: string): (ms: seq<string>)
    ensures |ms| == |Scan(p, s, 0)|
  {
    var spans := Scan(p, s, 0);
    ScanSpans(p, s, 0);
    seq(|spans|, k requires 0 <= k < |spans| && spans[k].0 <= spans[k].1 <= |s| => s[spans[k].0..spans[k].1])
  }

  // ---------------------------------------------------------------------
  // The matcher against the declarative meaning

  /** Every match the engine reports is a word of the pattern. */
  lemma {:induction false} MatchAtSound(p: Pattern, s: string, i: nat)
    requires i <= |s| && MatchAt(p, s, i).Some?
    ensures Denotes(p, s[i..MatchAt(p, s, i).value])
    decreases |p|, 0, 0
  {
    var e := MatchAt(p, s, i).value;
    if p != [] {
      match p[0]
      case Once(cls) =>
        MatchAtSound(p[1..], s, i + 1);
        assert s[i..e][1..] == s[i + 1..e];
      case OneOrMore(cls) =>
        var n := RunLength(cls, s, i);
        BacktrackSound(p[1..], s, i, n, cls);
    }
  }

  lemma {:induction false} BacktrackSound(rest: Pattern, s: string, i: nat, k: nat, cls: CharClass)
    requires 1 <= k && i + k <= |s| && Backtrack(rest, s, i, k).Some?
    requires forall m :: i <= m < i + k ==> InClass(cls, s[m])
    ensures Denotes([OneOrMore(cls)] + rest, s[i..Backtrack(rest, s, i, k).value])
    decreases |rest|, 1, k
  {
    var e := Backtrack(rest, s, i, k).value;
    if MatchAt(rest, s, i + k).Some? {
      MatchAtSound(rest, s, i + k);
      var w := s[i..e];
      assert w[k..] == s[i + k..e];
      forall m | 0 <= m < k
        ensures InClass(cls, w[..k][m])
      {
        assert w[..k][m] == s[i + m];
      }
      DenotesPlus(cls, rest, w, k);
    } else {
      BacktrackSound(rest, s, i, k - 1, cls);
    }
  }

  /** A run of `cls` followed by a word of `rest` is a word of `cls+` then `rest`. */
  lemma DenotesPlus(cls: CharClass, rest: Pattern, w: string, k: nat)
    requires 1 <= k <= |w| && AllIn(cls, w[..k]) && Denotes(rest, w[k..])
    ensures Denotes([OneOrMore(cls)] + rest, w)
  {
    var p := [OneOrMore(cls)] + rest;
    assert p[0] == OneOrMore(cls) && p[1..] == rest;
  }

  /** A run of class characters is never longer than the greedy run. */
  lemma RunLengthMaximal(cls: CharClass, s: string, i: nat, k: nat)
    requires i + k <= |s|
    requires forall m :: i <= m < i + k ==> InClass(cls, s[m])
    ensures k <= RunLength(cls, s, i)
  {
  }

  /** If the rest of the pattern matches after some number of repetitions within the run, backtracking finds a match. */
  lemma {:induction false} BacktrackComplete(rest: Pattern, s: string, i: nat, n: nat, k: nat)
    requires 1 <= k <= n && i + n <= |s|
    requires MatchAt(rest, s, i + k).Some?
    ensures Backtrack(rest, s, i, n).Some?
    decreases n
  {
    if MatchAt(rest, s, i + n).None? {
      BacktrackComplete(rest, s, i, n - 1, k);
    }
  }

  /**
   * Backtracking gives back as little as it can: it reports the match of the
   * rest after the largest number of repetitions, at most `n`, with which the
   * rest matches at all.
   */
  lemma {:induction false} BacktrackGreedy(rest: Pattern, s: string, i: nat, n: nat) returns (k: nat)
    requires 1 <= n && i + n <= |s| && Backtrack(rest, s, i, n).Some?
    ensures 1 <= k <= n && MatchAt(rest, s, i + k) == Backtrack(rest, s, i, n)
    ensures forall j :: i + k < j <= i + n ==> MatchAt(rest, s, j).None?
    decreases n
  {
    if MatchAt(rest, s, i + n).Some? {
      k := n;
    } else {
      k := BacktrackGreedy(rest, s, i, n - 1);
      forall j | i + k < j <= i + n
        ensures MatchAt(rest, s, j).None?
      {
        if j < i + n {
          assert i + k < j <= i + (n - 1);
        }
      }
    }
  }

  /**
   * The order in which a JavaScript engine tries a greedy `cls+`: the match
   * it reports continues after the longest run of `cls` (never longer than
   * the run `RunLength` finds, which cannot be extended) after which the
   * rest of the pattern matches; every longer run leaves the rest without a
   * match.
   */
  lemma MatchAtGreedy(p: Pattern, cls: CharClass, s: string, i: nat) returns (k: nat)
    requires p != [] && p[0] == OneOrMore(cls) && i <= |s| && MatchAt(p, s, i).Some?
    ensures 1 <= k <= RunLength(cls, s, i) && MatchAt(p[1..], s, i + k) == MatchAt(p, s, i)
    ensures forall j :: i + k < j <= i + RunLength(cls, s, i) ==> MatchAt(p[1..], s, j).None?
  {
    k := BacktrackGreedy(p[1..], s, i, RunLength(cls, s, i));
  }

  /**
   * When `cls+` meets a run of exactly `n` characters of `cls` and the rest
   * of the pattern matches after the whole run, the match is that one: no
   * backtracking happens.
   */
  lemma PlusStep(p: Pattern, cls: CharClass, s: string, i: nat, n: nat)
    requires p != [] && p[0] == OneOrMore(cls) && 1 <= n && i + n <= |s|
    requires forall k :: i <= k < i + n ==> InClass(cls, s[k])
    requires i + n == |s| || !InClass(cls, s[i + n])
    requires MatchAt(p[1..], s, i + n).Some?
    ensures MatchAt(p, s, i) == MatchAt(p[1..], s, i + n)
  {
    RunLengthExact(cls, s, i, n);
    assert MatchAt(p, s, i) == Backtrack(p[1..], s, i, n);
  }

  /** A single item of class `cls` takes one character of that class. */
  lemma OnceStep(p: Pattern, cls: CharClass, s: string, i: nat)
    requires p != [] && p[0] == Once(cls) && i < |s| && InClass(cls, s[i])
    ensures MatchAt(p, s, i) == MatchAt(p[1..], s, i + 1)
  {
  }

  /** A word of a pattern led by `cls+` starts with a run of `cls` after which the rest of the pattern matches. */
  lemma SplitPlus(p: Pattern, cls: CharClass, s: string, i: nat, j: nat) returns (k: nat)
    requires p != [] && p[0] == OneOrMore(cls) && i <= j <= |s| && Denotes(p, s[i..j])
    ensures 1 <= k && i + k <= j && Denotes(p[1..], s[i + k..j])
    ensures forall m :: i <= m < i + k ==> InClass(cls, s[m])
  {
    var w := s[i..j];
    k :| 1 <= k <= |w| && AllIn(cls, w[..k]) && Denotes(p[1..], w[k..]);
    assert w[k..] == s[i + k..j];
    forall m | i <= m < i + k
      ensures InClass(cls, s[m])
    {
      assert s[m] == w[..k][m - i];
    }
  }

  /** Whenever some word of the pattern starts at `i`, the engine finds a match at `i`. */
  lemma {:induction false} MatchAtComplete(p: Pattern, s: string, i: nat, j: nat)
    requires i <= j <= |s| && Denotes(p, s[i..j])
    ensures MatchAt(p, s, i).Some?
    decreases |p|
  {
    var w := s[i..j];
    if p != [] {
      match p[0]
      case Once(cls) =>
        assert w[1..] == s[i + 1..j];
        MatchAtComplete(p[1..], s, i + 1, j);
      case OneOrMore(cls) =>
        var k := SplitPlus(p, cls, s, i, j);
        RunLengthMaximal(cls, s, i, k);
        MatchAtComplete(p[1..], s, i + k, j);
        BacktrackComplete(p[1..], s, i, RunLength(cls, s, i), k);
    }
  }

  /** A non-empty pattern never matches the empty string here: every match moves forward. */
  lemma MatchAtAdvances(p: Pattern, s: string, i: nat)
    requires p != [] && i <= |s| && MatchAt(p, s, i).Some?
    ensures MatchAt(p, s, i).value > i
  {
    MatchAtSound(p, s, i);
  }

  // ---------------------------------------------------------------------
  // The global search against the declarative meaning

  /** A search that finds nothing passed over no position where a match starts. */
  lemma {:induction false} ScanEmptyMeansNoMatch(p: Pattern, s: string, from: nat)
    requires from <= |s| + 1
    requires Scan(p, s, from) == []
    ensures forall i :: from <= i <= |s| ==> MatchAt(p, s, i).None?
    decreases |s| + 1 - from
  {
    if from <= |s| {
      ScanEmptyMeansNoMatch(p, s, from + 1);
    }
  }

  /** No match of `p` starts at a position in [lo, hi). */
  predicate NoMatchIn(p: Pattern, s: string, lo: nat, hi: nat) {
    forall i :: lo <= i < hi && i <= |s| ==> MatchAt(p, s, i).None?
  }

  /**
   * The search is leftmost: no match starts between `from` and the first
   * span, nor between the point where the search resumes after a span and
   * the next span.
   */
  lemma {:induction false} ScanLeftmost(p: Pattern, s: string, from: nat)
    requires from <= |s| + 1
    ensures Scan(p, s, from) != [] ==> NoMatchIn(p, s, from, Scan(p, s, from)[0].0)
    ensures forall k :: 0 <= k < |Scan(p, s, from)| - 1 ==>
              NoMatchIn(p, s, Resume(Scan(p, s, from)[k].0, Scan(p, s, from)[k].1), Scan(p, s, from)[k + 1].0)
    decreases |s| + 1 - from
  {
    if from <= |s| {
      var spans := Scan(p, s, from);
      match MatchAt(p, s, from)
      case Some(e) =>
        var tail := Scan(p, s, Resume(from, e));
        ScanLeftmost(p, s, Resume(from, e));
        assert spans == [(from, e)] + tail;
        forall k | 0 <= k < |spans| - 1
          ensures NoMatchIn(p, s, Resume(spans[k].0, spans[k].1), spans[k + 1].0)
        {
          assert spans[k + 1] == tail[k];
          if k > 0 {
            assert spans[k] == tail[k - 1];
          }
        }
      case None =>
        ScanLeftmost(p, s, from + 1);
        assert spans == Scan(p, s, from + 1);
    }
  }

  /** One step of the search: a match at `from` is reported and the search resumes after it, or the search moves on. */
  lemma ScanStep(p: Pattern, s: string, from: nat)
    requires from <= |s|
    ensures MatchAt(p, s, from).Some? ==>
              var e := MatchAt(p, s, from).value;
              Scan(p, s, from) == [(from, e)] + Scan(p, s, Resume(from, e))
    ensures MatchAt(p, s, from).None? ==> Scan(p, s, from) == Scan(p, s, from + 1)
  {
  }

  /** A search resumed after the last span it reported finds nothing more. */
  lemma {:induction false} ScanEndsAfterLast(p: Pattern, s: string, from: nat)
    requires from <= |s| + 1
    requires Scan(p, s, from) != []
    ensures var last := Scan(p, s, from)[|Scan(p, s, from)| - 1];
            Resume(last.0, last.1) <= |s| + 1 && Scan(p, s, Resume(last.0, last.1)) == []
    decreases |s| + 1 - from
  {
    assert from <= |s|;
    ScanStep(p, s, from);
    var spans := Scan(p, s, from);
    if MatchAt(p, s, from).Some? {
      var e := MatchAt(p, s, from).value;
      var tail := Scan(p, s, Resume(from, e));
      if tail == [] {
        assert spans[|spans| - 1] == (from, e);
      } else {
        ScanEndsAfterLast(p, s, Resume(from, e));
        assert spans[|spans| - 1] == tail[|tail| - 1];
      }
    } else {
      ScanEndsAfterLast(p, s, from + 1);
    }
  }

  /** After the last span a search reports, no match starts anywhere. */
  lemma ScanLastIsLast(p: Pattern, s: string, from: nat)
    requires from <= |s| + 1
    requires Scan(p, s, from) != []
    ensures var last := Scan(p, s, from)[|Scan(p, s, from)| - 1];
            forall i :: Resume(last.0, last.1) <= i <= |s| ==> MatchAt(p, s, i).None?
  {
    var spans := Scan(p, s, from);
    var last := spans[|spans| - 1];
    ScanEndsAfterLast(p, s, from);
    ScanEmptyMeansNoMatch(p, s, Resume(last.0, last.1));
  }

  /** A search from position `from` reports something exactly when a word of the pattern occurs from there on. */
  lemma ScanFindsIff(p: Pattern, s: string, from: nat)
    requires from <= |s| + 1
    ensures Scan(p, s, from) != [] <==> OccursFrom(p, s, from)
  {
    var spans := Scan(p, s, from);
    if spans != [] {
      ScanSpans(p, s, from);
      var i := spans[0].0;
      MatchAtSound(p, s, i);
      assert from <= i <= spans[0].1 <= |s| && Denotes(p, s[i..spans[0].1]);
    } else if OccursFrom(p, s, from) {
      var i, j :| from <= i <= j <= |s| && Denotes(p, s[i..j]);
      MatchAtComplete(p, s, i, j);
      ScanEmptyMeansNoMatch(p, s, from);
    }
  }

  /** No word of the pattern starts at or after the point where the search resumed after its last match. */
  lemma NothingAfterLastMatch(p: Pattern, s: string)
    requires Scan(p, s, 0) != []
    ensures var last := Scan(p, s, 0)[|Scan(p, s, 0)| - 1];
            !OccursFrom(p, s, Resume(last.0, last.1))
  {
    var spans := Scan(p, s, 0);
    var last := spans[|spans| - 1];
    ScanLastIsLast(p, s, 0);
    if OccursFrom(p, s, Resume(last.0, last.1)) {
      var i, j :| Resume(last.0, last.1) <= i <= j <= |s| && Denotes(p, s[i..j]);
      MatchAtComplete(p, s, i, j);
    }
  }

  /** Entry `k` of `s.match(re)` is the text of the `k`-th span of the search, which the engine matched. */
  lemma MatchAllEntry(p: Pattern, s: string, k: nat)
    requires k < |Scan(p, s, 0)|
    ensures var span := Scan(p, s, 0)[k];
            span.0 <= span.1 <= |s| && MatchAt(p, s, span.0) == Some(span.1)
            && MatchAll(p, s)[k] == s[span.0..span.1]
  {
    ScanSpans(p, s, 0);
  }

  /**
   * The last entry of `s.match(re)`, for a pattern that cannot match the empty
   * string, is the text of the last span of the search: a non-empty word of
   * the pattern after whose end no word starts.
   */
  lemma LastMatchIsLast(p: Pattern, s: string)
    requires p != [] && MatchAll(p, s) != []
    ensures var ms := MatchAll(p, s);
            var spans := Scan(p, s, 0);
            var last := spans[|spans| - 1];
            && 0 <= last.0 < last.1 <= |s| && ms[|ms| - 1] == s[last.0..last.1]
            && Denotes(p, s[last.0..last.1]) && !OccursFrom(p, s, last.1)
  {
    var spans := Scan(p, s, 0);
    var ms := MatchAll(p, s);
    var n := |spans|;
    assert n == |ms| > 0;
    var a, b := spans[n - 1].0, spans[n - 1].1;
    assert b <= |s| && MatchAt(p, s, a) == Some(b) && ms[n - 1] == s[a..b] by {
      MatchAllEntry(p, s, n - 1);
    }
    assert Denotes(p, s[a..b]) by {
      MatchAtSound(p, s, a);
    }
    assert a < b by {
      MatchAtAdvances(p, s, a);
    }
    assert !OccursFrom(p, s, b) by {
      NothingAfterLastMatch(p, s);
      assert Resume(a, b) == b;
    }
  }

  /**
   * For a pattern that cannot match the empty string, `s.match(re)` is
   * non-null exactly when a word occurs in `s`, and its last entry is then
   * the text of the last span of the search.
   */
  lemma LastEntryMeaning(p: Pattern, s: string)
    requires p != []
    ensures MatchAll(p, s) != [] <==> Occurs(p, s)
    ensures var ms := MatchAll(p, s);
            var spans := Scan(p, s, 0);
            ms != [] ==>
              && spans != []
              && var last := spans[|spans| - 1];
                 && 0 <= last.0 < last.1 <= |s| && ms[|ms| - 1] == s[last.0..last.1]
                 && Denotes(p, ms[|ms| - 1]) && !OccursFrom(p, s, last.1)
  {
    MatchAllNonEmptyIff(p, s);
    if MatchAll(p, s) != [] {
      LastMatchIsLast(p, s);
    }
  }

  /** `s.match(re)` is non-null exactly when a word of the pattern occurs in `s`. */
  lemma MatchAllNonEmptyIff(p: Pattern, s: string)
    ensures MatchAll(p, s) != [] <==> Occurs(p, s)
  {
    ScanFindsIff(p, s, 0);
    if Occurs(p, s) {
      var i, j :| 0 <= i <= j <= |s| && Denotes(p, s[i..j]);
      assert OccursFrom(p, s, 0);
    }
  }
}
