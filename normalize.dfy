/**
 * `toVersionRanges`: a formula in disjunctive normal form becomes the list of ranges a version
 * must lie in one of. The conjunctions' ranges are collected, sorted by range order, and
 * neighbours that intersect or touch are merged; when nothing survives, the list holds only
 * the empty sentinel range.
 */
module Normalizer {
  import opened Wrappers
  import V = Versions
  import opened Comparators
  import opened VersionRanges
  import opened Conjunctions

  /** A disjunction of conjunctions of predicates, each predicate given by its comparators. */
  type Formula = seq<seq<seq<Comparator>>>

  predicate FormulaWellFormed(f: Formula) {
    forall k :: 0 <= k < |f| ==> ConjWellFormed(f[k])
  }

  /** Some conjunction of the formula holds. */
  predicate Satisfies(f: Formula, v: V.Version) {
    exists k :: 0 <= k < |f| && SatisfiesAll(f[k], v)
  }

  /** The ranges the outer loop collects, conjunction by conjunction. */
  function Candidates(f: Formula): seq<VersionRange> {
    if |f| == 0 then [] else Candidates(f[..|f| - 1]) + Pieces(f[|f| - 1])
  }

  lemma {:induction false} CandidatesSnoc(f: Formula, conj: seq<seq<Comparator>>)
    ensures Candidates(f + [conj]) == Candidates(f) + Pieces(conj)
  {
    assert (f + [conj])[..|f|] == f;
  }

  lemma {:induction false} InRangesAppend(a: seq<VersionRange>, b: seq<VersionRange>, v: V.Version)
    ensures InRanges(a + b, v) <==> InRanges(a, v) || InRanges(b, v)
  {
    if InRanges(a + b, v) {
      var i :| 0 <= i < |a + b| && Contains((a + b)[i], v);
      if i >= |a| {
        assert (a + b)[i] == b[i - |a|];
      }
    }
    if InRanges(b, v) {
      var i :| 0 <= i < |b| && Contains(b[i], v);
      assert (a + b)[|a| + i] == b[i];
    }
    if InRanges(a, v) {
      var i :| 0 <= i < |a| && Contains(a[i], v);
      assert (a + b)[i] == a[i];
    }
  }

  /** The collected ranges hold exactly the versions that satisfy the formula. */
  lemma {:induction false} CandidatesMeaning(f: Formula, v: V.Version)
    requires FormulaWellFormed(f) && V.WellFormed(v)
    ensures RangesWellFormed(Candidates(f))
    ensures InRanges(Candidates(f), v) <==> Satisfies(f, v)
  {
    if |f| > 0 {
      var init := f[..|f| - 1];
      assert FormulaWellFormed(init) by {
        assert forall k :: 0 <= k < |init| ==> init[k] == f[k];
      }
      CandidatesMeaning(init, v);
      PiecesMeaning(f[|f| - 1], v);
      InRangesAppend(Candidates(init), Pieces(f[|f| - 1]), v);
      if Satisfies(f, v) {
        var k :| 0 <= k < |f| && SatisfiesAll(f[k], v);
        if k < |f| - 1 {
          assert init[k] == f[k];
        }
      }
      if Satisfies(init, v) {
        var k :| 0 <= k < |init| && SatisfiesAll(init[k], v);
        assert init[k] == f[k];
      }
    }
  }

  // ---------------------------------------------------------------------------------------
  // Sorting

  /** The sort fails when it meets two ranges with null starts and different finite ends. */
  predicate SortFails(rs: seq<VersionRange>) {
    exists a, b :: a in rs && b in rs && OpenStartClash(a, b)
  }

  /** `compareTo` where it succeeds. */
  function KeyCompare(a: VersionRange, b: VersionRange): int {
    var c := Compare(a, b);
    if c.Ok? then c.value else 0
  }

  /** `x` placed before the first element that is strictly greater, keeping ties in input order. */
  function Insert(sorted: seq<VersionRange>, x: VersionRange): (r: seq<VersionRange>)
    ensures multiset(r) == multiset(sorted) + multiset{x}
    decreases |sorted|
  {
    if |sorted| == 0 then [x]
    else if KeyCompare(x, sorted[0]) < 0 then [x] + sorted
    else
      assert sorted == [sorted[0]] + sorted[1..];
      [sorted[0]] + Insert(sorted[1..], x)
  }

  /** A stable sort by `compareTo`: the result is a permutation of the input. */
  function InsertionSort(rs: seq<VersionRange>): (r: seq<VersionRange>)
    ensures multiset(r) == multiset(rs)
  {
    if |rs| == 0 then []
    else
      assert rs == rs[..|rs| - 1] + [rs[|rs| - 1]];
      Insert(InsertionSort(rs[..|rs| - 1]), rs[|rs| - 1])
  }

  /** `sort()`: an error when two ranges cannot be ordered, else the stably sorted list. */
  function SortRanges(rs: seq<VersionRange>): Result<seq<VersionRange>> {
    if SortFails(rs) then Err(IllegalState) else Ok(InsertionSort(rs))
  }

  /** No range starts later than one after it. */
  predicate StartSorted(rs: seq<VersionRange>) {
    forall i, j :: 0 <= i < j < |rs| ==> StartLe(rs[i], rs[j])
  }

  lemma {:induction false} InsertSorted(sorted: seq<VersionRange>, x: VersionRange)
    requires RangesWellFormed(sorted) && WellFormed(x) && StartSorted(sorted)
    requires forall a :: a in sorted ==> !OpenStartClash(x, a)
    ensures StartSorted(Insert(sorted, x))
    decreases |sorted|
  {
    if |sorted| > 0 {
      var s0 := sorted[0];
      assert s0 in sorted;
      CompareProperties(x, s0);
      CompareProperties(s0, x);
      if KeyCompare(x, s0) < 0 {
        forall e | e in sorted
          ensures StartLe(x, e)
        {
          var k :| 0 <= k < |sorted| && sorted[k] == e;
          if k > 0 {
            StartLeTransitive(x, s0, e);
          }
        }
        ConsSorted(x, sorted);
      } else {
        var tail := sorted[1..];
        TailSorted(sorted);
        InsertSorted(tail, x);
        InsertAfterHead(sorted, x);
      }
    }
  }

  lemma {:induction false} TailSorted(sorted: seq<VersionRange>)
    requires |sorted| > 0 && RangesWellFormed(sorted) && StartSorted(sorted)
    ensures RangesWellFormed(sorted[1..]) && StartSorted(sorted[1..])
    ensures forall a :: a in sorted[1..] ==> a in sorted
  {
    var tail := sorted[1..];
    assert forall a :: a in tail ==> a in sorted;
    forall i, j | 0 <= i < j < |tail|
      ensures StartLe(tail[i], tail[j])
    {
      assert tail[i] == sorted[i + 1] && tail[j] == sorted[j + 1];
    }
  }

  /** Inserting after the head keeps the head first, before a sorted insertion into the tail. */
  lemma {:induction false} InsertAfterHead(sorted: seq<VersionRange>, x: VersionRange)
    requires |sorted| > 0 && StartSorted(sorted) && KeyCompare(x, sorted[0]) >= 0 && StartLe(sorted[0], x)
    requires StartSorted(Insert(sorted[1..], x))
    ensures StartSorted(Insert(sorted, x))
  {
    var s0 := sorted[0];
    var tail := sorted[1..];
    var rest := Insert(tail, x);
    forall e | e in rest
      ensures StartLe(s0, e)
    {
      assert e in multiset(rest);
      if e != x {
        assert e in tail;
        var k :| 0 <= k < |tail| && tail[k] == e;
        assert sorted[k + 1] == e;
      }
    }
    ConsSorted(s0, rest);
  }

  /** A range starting no later than every range of a start-sorted list may lead it. */
  lemma {:induction false} ConsSorted(x: VersionRange, rs: seq<VersionRange>)
    requires StartSorted(rs) && forall e :: e in rs ==> StartLe(x, e)
    ensures StartSorted([x] + rs)
  {
    var r := [x] + rs;
    forall i, j | 0 <= i < j < |r|
      ensures StartLe(r[i], r[j])
    {
      assert r[j] == rs[j - 1] && r[j] in rs;
      if i > 0 {
        assert r[i] == rs[i - 1];
      }
    }
  }

  /** When the sort succeeds, its result is ordered by start. */
  lemma {:induction false} InsertionSortSorted(rs: seq<VersionRange>)
    requires RangesWellFormed(rs) && !SortFails(rs)
    ensures StartSorted(InsertionSort(rs))
  {
    if |rs| > 0 {
      var init := rs[..|rs| - 1];
      var x := rs[|rs| - 1];
      assert forall a :: a in init ==> a in rs;
      InsertionSortSorted(init);
      var sorted := InsertionSort(init);
      forall a | a in sorted
        ensures !OpenStartClash(x, a) && WellFormed(a)
      {
        assert a in multiset(sorted);
        assert a in init;
      }
      assert x in rs;
      InsertSorted(sorted, x);
    }
  }

  lemma {:induction false} SamePermutationSameUnion(a: seq<VersionRange>, b: seq<VersionRange>, v: V.Version)
    requires multiset(a) == multiset(b)
    ensures InRanges(a, v) <==> InRanges(b, v)
    ensures RangesWellFormed(a) <==> RangesWellFormed(b)
  {
    assert forall e :: e in a <==> e in multiset(a);
    assert forall e :: e in b <==> e in multiset(b);
    InRangesMember(a, v);
    InRangesMember(b, v);
  }

  // ---------------------------------------------------------------------------------------
  // Merging

  /** The merge test: the ranges intersect, or the first ends where the second starts. */
  predicate Touches(c: VersionRange, n: VersionRange) {
    Intersects(c, n) || V.OptEquals(c.end, n.start)
  }

  /** `maxOf`: the first argument when it is not smaller. */
  function MaxOf(a: V.Version, b: V.Version): (m: V.Version)
    ensures m == a || m == b
  {
    if V.Compare(a, b) >= 0 then a else b
  }

  /** The merged range: the first start, and the later end when both ends are finite. */
  function MergedWith(c: VersionRange, n: VersionRange): VersionRange {
    VersionRange(c.start, if c.end.Some? && n.end.Some? then Some(MaxOf(c.end.value, n.end.value)) else None)
  }

  /** The merge loop from `current` over the remaining sorted ranges. */
  function MergeFrom(current: VersionRange, rest: seq<VersionRange>): (r: seq<VersionRange>)
    ensures 1 <= |r| <= |rest| + 1
    decreases |rest|
  {
    if |rest| == 0 then [current]
    else if Touches(current, rest[0]) then MergeFrom(MergedWith(current, rest[0]), rest[1..])
    else [current] + MergeFrom(rest[0], rest[1..])
  }

  lemma {:induction false} MaxOfIsUpperBound(a: V.Version, b: V.Version)
    requires V.WellFormed(a) && V.WellFormed(b)
    ensures V.Compare(a, MaxOf(a, b)) <= 0 && V.Compare(b, MaxOf(a, b)) <= 0
  {
    V.CompareIsTotalPreorder(a, b, b);
    V.CompareIsTotalPreorder(a, a, a);
    V.CompareIsTotalPreorder(b, b, b);
  }

  /** Merging two touching ranges, the first starting no later, keeps exactly their union. */
  lemma {:induction false} MergedContains(c: VersionRange, n: VersionRange, v: V.Version)
    requires WellFormed(c) && WellFormed(n) && V.WellFormed(v)
    requires StartLe(c, n) && Touches(c, n)
    ensures WellFormed(MergedWith(c, n))
    ensures Contains(MergedWith(c, n), v) <==> Contains(c, v) || Contains(n, v)
  {
    var m := MergedWith(c, n);
    if c.end.Some? && n.end.Some? {
      MaxOfIsUpperBound(c.end.value, n.end.value);
      V.CompareIsTotalPreorder(v, c.end.value, m.end.value);
      V.CompareIsTotalPreorder(v, n.end.value, m.end.value);
      V.CompareAntisymmetric(v, c.end.value);
      V.CompareAntisymmetric(v, n.end.value);
    }
    if Contains(n, v) && c.start.Some? {
      V.CompareIsTotalPreorder(c.start.value, n.start.value, v);
    }
    if Contains(m, v) && !Contains(c, v) {
      // `v` lies at or beyond the first range's end, so it is past the second range's start
      V.CompareAntisymmetric(v, c.end.value);
      if n.start.Some? {
        if V.OptEquals(c.end, n.start) {
          V.CompareSubstitute(c.end.value, n.start.value, v);
        } else {
          V.CompareIsTotalPreorder(n.start.value, c.end.value, v);
        }
      }
    }
  }

  /** Over start-sorted ranges, the merge loop keeps the union. */
  lemma {:induction false} MergeMeaning(current: VersionRange, rest: seq<VersionRange>, v: V.Version)
    requires WellFormed(current) && RangesWellFormed(rest) && V.WellFormed(v)
    requires StartSorted(rest) && forall k :: 0 <= k < |rest| ==> StartLe(current, rest[k])
    ensures RangesWellFormed(MergeFrom(current, rest))
    ensures InRanges(MergeFrom(current, rest), v) <==> Contains(current, v) || InRanges(rest, v)
    decreases |rest|
  {
    InRangesMember([current], v);
    if |rest| > 0 {
      var n := rest[0];
      assert n in rest;
      var tail := rest[1..];
      assert forall e :: e in tail ==> e in rest;
      assert StartSorted(tail) by {
        forall i, j | 0 <= i < j < |tail|
          ensures StartLe(tail[i], tail[j])
        {
          assert tail[i] == rest[i + 1] && tail[j] == rest[j + 1];
        }
      }
      assert rest == [n] + tail;
      InRangesAppend([n], tail, v);
      InRangesMember([n], v);
      if Touches(current, n) {
        MergedContains(current, n, v);
        var m := MergedWith(current, n);
        assert forall k :: 0 <= k < |tail| ==> StartLe(m, tail[k]) by {
          forall k | 0 <= k < |tail|
            ensures StartLe(m, tail[k])
          {
            assert tail[k] == rest[k + 1];
          }
        }
        MergeMeaning(m, tail, v);
      } else {
        assert forall k :: 0 <= k < |tail| ==> StartLe(n, tail[k]) by {
          forall k | 0 <= k < |tail|
            ensures StartLe(n, tail[k])
          {
            assert tail[k] == rest[k + 1];
          }
        }
        MergeMeaning(n, tail, v);
        InRangesAppend([current], MergeFrom(n, tail), v);
      }
    }
  }

  /** Every range the merge loop emits starts no earlier than `current`. */
  lemma {:induction false} MergeStarts(current: VersionRange, rest: seq<VersionRange>)
    requires WellFormed(current) && RangesWellFormed(rest)
    requires StartSorted(rest) && forall k :: 0 <= k < |rest| ==> StartLe(current, rest[k])
    ensures forall e :: e in MergeFrom(current, rest) ==> StartLe(current, e)
    decreases |rest|
  {
    if current.start.Some? {
      V.CompareIsTotalPreorder(current.start.value, current.start.value, current.start.value);
    }
    if |rest| > 0 {
      var n := rest[0];
      assert n in rest;
      var tail := rest[1..];
      assert forall e :: e in tail ==> e in rest;
      assert StartSorted(tail) by {
        forall i, j | 0 <= i < j < |tail|
          ensures StartLe(tail[i], tail[j])
        {
          assert tail[i] == rest[i + 1] && tail[j] == rest[j + 1];
        }
      }
      assert forall k :: 0 <= k < |tail| ==> tail[k] == rest[k + 1];
      if Touches(current, n) {
        if current.end.Some? && n.end.Some? {
          assert MaxOf(current.end.value, n.end.value) in [current.end.value, n.end.value];
        }
        MergeStarts(MergedWith(current, n), tail);
      } else {
        MergeStarts(n, tail);
        LeastWellFormed();
        MergeMeaning(n, tail, V.Least);
        forall e | e in MergeFrom(n, tail)
          ensures StartLe(current, e)
        {
          StartLeTransitive(current, n, e);
        }
      }
    }
  }

  /**
   * The normalizer's promised form: no range is inverted, and each range ends strictly before
   * the next one starts (so they are ordered by start, and neither intersect nor touch).
   */
  predicate Canonical(rs: seq<VersionRange>) {
    (forall i :: 0 <= i < |rs| ==> NotInverted(rs[i]))
    && forall i, j :: 0 <= i < j < |rs| ==> EndsBefore(rs[i], rs[j])
  }

  /** `a` has an end, `b` a start, and the end comes strictly first. */
  predicate EndsBefore(a: VersionRange, b: VersionRange) {
    a.end.Some? && b.start.Some? && V.Compare(a.end.value, b.start.value) < 0
  }

  /** Two ranges the merge loop keeps apart leave a gap: the first ends before the second starts. */
  lemma {:induction false} NotTouchingSeparated(c: VersionRange, n: VersionRange)
    requires WellFormed(c) && WellFormed(n) && StartLe(c, n) && NotInverted(n)
    requires !Touches(c, n)
    ensures c.end.Some? && n.start.Some? && V.Compare(c.end.value, n.start.value) < 0
  {
    if c.start.Some? && n.end.Some? {
      V.CompareIsTotalPreorder(c.start.value, n.start.value, n.end.value);
    }
    V.CompareAntisymmetric(c.end.value, n.start.value);
  }

  /** Over start-sorted ranges none of which is inverted, the merge loop yields the canonical form. */
  lemma {:induction false} MergeCanonical(current: VersionRange, rest: seq<VersionRange>)
    requires WellFormed(current) && RangesWellFormed(rest)
    requires StartSorted(rest) && forall k :: 0 <= k < |rest| ==> StartLe(current, rest[k])
    requires NotInverted(current) && forall k :: 0 <= k < |rest| ==> NotInverted(rest[k])
    ensures Canonical(MergeFrom(current, rest))
    decreases |rest|
  {
    if |rest| > 0 {
      var n := rest[0];
      assert n in rest;
      var tail := rest[1..];
      assert forall e :: e in tail ==> e in rest;
      assert StartSorted(tail) by {
        forall i, j | 0 <= i < j < |tail|
          ensures StartLe(tail[i], tail[j])
        {
          assert tail[i] == rest[i + 1] && tail[j] == rest[j + 1];
        }
      }
      assert forall k :: 0 <= k < |tail| ==> tail[k] == rest[k + 1];
      if Touches(current, n) {
        var m := MergedWith(current, n);
        LeastWellFormed();
        MergedContains(current, n, V.Least);
        if current.end.Some? && n.end.Some? && current.start.Some? {
          MaxOfIsUpperBound(current.end.value, n.end.value);
          V.CompareIsTotalPreorder(current.start.value, current.end.value, m.end.value);
        }
        MergeCanonical(m, tail);
      } else {
        NotTouchingSeparated(current, n);
        MergeCanonical(n, tail);
        MergeStarts(n, tail);
        LeastWellFormed();
        MergeMeaning(n, tail, V.Least);
        CanonicalCons(current, n, MergeFrom(n, tail));
      }
    }
  }

  /** A range ending before `n` starts may lead a canonical list whose ranges start no earlier than `n`. */
  lemma {:induction false} CanonicalCons(current: VersionRange, n: VersionRange, out: seq<VersionRange>)
    requires WellFormed(current) && WellFormed(n) && RangesWellFormed(out) && Canonical(out)
    requires NotInverted(current) && forall e :: e in out ==> StartLe(n, e)
    requires current.end.Some? && n.start.Some? && V.Compare(current.end.value, n.start.value) < 0
    ensures Canonical([current] + out)
  {
    var r := [current] + out;
    assert forall i :: 0 < i < |r| ==> r[i] == out[i - 1];
    assert forall i :: 0 <= i < |r| ==> NotInverted(r[i]);
    forall i, j | 0 <= i < j < |r|
      ensures EndsBefore(r[i], r[j])
    {
      if i == 0 {
        EndsBeforeLater(current, n, out[j - 1], out);
      } else {
        assert r[i] == out[i - 1] && r[j] == out[j - 1];
      }
    }
  }

  /** A range ending before `n` starts ends before every range of `out` starts. */
  lemma {:induction false} EndsBeforeLater(current: VersionRange, n: VersionRange, e: VersionRange, out: seq<VersionRange>)
    requires WellFormed(current) && WellFormed(n) && RangesWellFormed(out) && e in out
    requires forall x :: x in out ==> StartLe(n, x)
    requires current.end.Some? && n.start.Some? && V.Compare(current.end.value, n.start.value) < 0
    ensures EndsBefore(current, e)
  {
    assert StartLe(n, e) && WellFormed(e);
    V.CompareIsTotalPreorder(current.end.value, n.start.value, e.start.value);
  }

  // ---------------------------------------------------------------------------------------
  // The whole normalizer

  /** `toVersionRanges`. */
  function Normalize(f: Formula): Result<seq<VersionRange>> {
    var sorted :- SortRanges(Candidates(f));
    if |sorted| == 0 then Ok([Sentinel]) else Ok(MergeFrom(sorted[0], sorted[1..]))
  }

  lemma {:induction false} SortedTail(s: seq<VersionRange>)
    requires |s| > 0 && StartSorted(s)
    ensures StartSorted(s[1..]) && forall k :: 0 <= k < |s[1..]| ==> StartLe(s[0], s[1..][k])
  {
    assert forall k :: 0 <= k < |s[1..]| ==> s[1..][k] == s[k + 1];
  }

  /** Merging a start-sorted, non-empty list keeps its union. */
  lemma {:induction false} MergeAll(s: seq<VersionRange>, v: V.Version)
    requires |s| > 0 && RangesWellFormed(s) && StartSorted(s) && V.WellFormed(v)
    ensures RangesWellFormed(MergeFrom(s[0], s[1..]))
    ensures InRanges(MergeFrom(s[0], s[1..]), v) <==> InRanges(s, v)
  {
    SortedTail(s);
    assert s == [s[0]] + s[1..];
    assert s[0] in s;
    assert forall e :: e in s[1..] ==> e in s;
    MergeMeaning(s[0], s[1..], v);
    InRangesAppend([s[0]], s[1..], v);
    InRangesMember([s[0]], v);
  }

  /**
   * The normalizer fails only when the sort meets two open-start ranges with different ends;
   * otherwise its non-empty result holds exactly the versions that satisfy the formula.
   */
  lemma {:induction false} NormalizeMeaning(f: Formula, v: V.Version)
    requires FormulaWellFormed(f) && V.WellFormed(v)
    ensures Normalize(f).Err? <==> SortFails(Candidates(f))
    ensures Normalize(f).Err? ==> Normalize(f).error == IllegalState
    ensures Normalize(f).Ok? ==> |Normalize(f).value| >= 1 && RangesWellFormed(Normalize(f).value)
    ensures Normalize(f).Ok? ==> (InRanges(Normalize(f).value, v) <==> Satisfies(f, v))
  {
    var c := Candidates(f);
    CandidatesMeaning(f, v);
    if !SortFails(c) {
      var s := InsertionSort(c);
      SamePermutationSameUnion(c, s, v);
      if |s| == 0 {
        SentinelIsEmpty(v);
        LeastWellFormed();
        assert RangesWellFormed([Sentinel]);
      } else {
        InsertionSortSorted(c);
        MergeAll(s, v);
      }
    }
  }

  /** A successful sort of well-formed ranges yields well-formed ranges, ordered by start, from the input. */
  lemma {:induction false} SortFacts(c: seq<VersionRange>)
    requires RangesWellFormed(c) && !SortFails(c)
    ensures var s := InsertionSort(c);
      RangesWellFormed(s) && StartSorted(s) && forall e :: e in s ==> e in c
  {
    var s := InsertionSort(c);
    assert forall e :: e in s <==> e in multiset(s);
    assert forall e :: e in c <==> e in multiset(c);
    InsertionSortSorted(c);
  }

  /** Merging a start-sorted, non-empty list none of whose ranges is inverted gives the canonical form. */
  lemma {:induction false} MergeAllCanonical(s: seq<VersionRange>)
    requires |s| > 0 && RangesWellFormed(s) && StartSorted(s)
    requires forall k :: 0 <= k < |s| ==> NotInverted(s[k])
    ensures Canonical(MergeFrom(s[0], s[1..]))
  {
    SortedTail(s);
    assert forall k :: 0 <= k < |s| ==> s[k] in s;
    assert forall k :: 0 <= k < |s[1..]| ==> s[1..][k] == s[k + 1];
    MergeCanonical(s[0], s[1..]);
  }

  /** When no collected range is inverted, a successful result is in canonical form. */
  lemma {:induction false} NormalizeCanonical(f: Formula)
    requires FormulaWellFormed(f)
    requires forall r :: r in Candidates(f) ==> NotInverted(r)
    ensures Normalize(f).Ok? ==> Canonical(Normalize(f).value)
  {
    LeastWellFormed();
    CandidatesMeaning(f, V.Least);
    SortMergeCanonical(Candidates(f));
  }

  /** Sorting, then merging, well-formed ranges none of which is inverted gives the canonical form. */
  lemma {:induction false} SortMergeCanonical(c: seq<VersionRange>)
    requires RangesWellFormed(c) && forall r :: r in c ==> NotInverted(r)
    ensures !SortFails(c) && |InsertionSort(c)| > 0
            ==> Canonical(MergeFrom(InsertionSort(c)[0], InsertionSort(c)[1..]))
  {
    if !SortFails(c) {
      var s := InsertionSort(c);
      SortFacts(c);
      if |s| > 0 {
        assert forall k :: 0 <= k < |s| ==> s[k] in s;
        MergeAllCanonical(s);
      }
    }
  }

  /** Between a canonical list's ranges lies a version in none: the first one's end. */
  lemma {:induction false} CanonicalLeavesGaps(rs: seq<VersionRange>, i: nat)
    requires RangesWellFormed(rs) && Canonical(rs)
    requires i < |rs| && rs[i].end.Some?
    ensures !InRanges(rs, rs[i].end.value)
  {
    var x := rs[i].end.value;
    assert rs[i] in rs;
    V.CompareIsTotalPreorder(x, x, x);
    forall j | 0 <= j < |rs|
      ensures !Contains(rs[j], x)
    {
      assert rs[j] in rs;
      if j < i {
        assert EndsBefore(rs[j], rs[i]);
        V.CompareIsTotalPreorder(rs[j].end.value, rs[i].start.value, x);
        V.CompareAntisymmetric(x, rs[j].end.value);
      } else if j > i {
        assert EndsBefore(rs[i], rs[j]);
        V.CompareAntisymmetric(x, rs[j].start.value);
      }
    }
  }

  /** When every conjunction is dropped, the result is the one empty sentinel range. */
  lemma {:induction false} NothingSurvivesGivesSentinel(f: Formula)
    requires forall k :: 0 <= k < |f| ==> Pieces(f[k]) == []
    ensures Candidates(f) == [] && Normalize(f) == Ok([Sentinel])
  {
    if |f| > 0 {
      var init := f[..|f| - 1];
      assert forall k :: 0 <= k < |init| ==> init[k] == f[k];
      NothingSurvivesGivesSentinel(init);
      assert Pieces(f[|f| - 1]) == [];
    }
  }

  // ---------------------------------------------------------------------------------------
  // The normalizer as the source runs it

  /** `toVersionRanges`, loop by loop: collect, sort, then merge neighbours. */
  method ToVersionRanges(formula: Formula) returns (r: Result<seq<VersionRange>>)
    ensures r == Normalize(formula)
  {
    var valid := CollectRanges(formula);
    var sorted :- SortRanges(valid);
    if |sorted| == 0 {
      return Ok([Sentinel]);
    }
    var merged := MergeSorted(sorted);
    return Ok(merged);
  }

  /** The outer loop: each conjunction's ranges, appended in order. */
  method CollectRanges(formula: Formula) returns (valid: seq<VersionRange>)
    ensures valid == Candidates(formula)
  {
    valid := [];
    for k := 0 to |formula|
      invariant valid == Candidates(formula[..k])
    {
      var pieces := ConjunctionRanges(formula[k]);
      assert formula[..k + 1] == formula[..k] + [formula[k]];
      CandidatesSnoc(formula[..k], formula[k]);
      valid := valid + pieces;
    }
    assert formula[..|formula|] == formula;
  }

  /** The merge loop: neighbours that intersect or touch are joined, the others emitted in order. */
  method MergeSorted(sorted: seq<VersionRange>) returns (out: seq<VersionRange>)
    requires |sorted| > 0
    ensures out == MergeFrom(sorted[0], sorted[1..])
  {
    out := [];
    var current := sorted[0];
    for i := 1 to |sorted|
      invariant out + MergeFrom(current, sorted[i..]) == MergeFrom(sorted[0], sorted[1..])
    {
      assert sorted[i..][1..] == sorted[i + 1..];
      var next := sorted[i];
      if Touches(current, next) {
        current := MergedWith(current, next);
      } else {
        out := out + [current];
        current := next;
      }
    }
    out := out + [current];
  }

  // ---------------------------------------------------------------------------------------
  // Single predicates and the two open-start and upper-end cases

  /** An accepted range predicate on its own contributes exactly its own range. */
  lemma {:induction false} RangePredicatePieces(p: RangePredicate)
    requires V.OptWellFormed(p.start) && V.OptWellFormed(p.end)
    requires MakeRangePredicate(p.start, p.end).Ok?
    ensures Pieces([Comparators.Comparators(p)]) == [VersionRange(p.start, p.end)]
  {
    var cs := Comparators.Comparators(p);
    assert Flatten([cs]) == cs by {
      assert Flatten([cs]) == cs + Flatten([cs][1..]);
      assert [cs][1..] == [];
    }
    RangePredicateRefs(p);
    assert Dedup([]) == [];
  }

  /** The comparators of a range predicate: no EQ or NEQ, its start as the lower and its end as the upper reference. */
  lemma {:induction false} RangePredicateRefs(p: RangePredicate)
    ensures var cs := Comparators.Comparators(p);
      WithOp(cs, EQ) == [] && WithOp(cs, NEQ) == []
      && LowerRefs(cs) == (if p.start.Some? then [p.start.value] else [])
      && UpperRefs(cs) == (if p.end.Some? then [p.end.value] else [])
  {
    var cs := Comparators.Comparators(p);
    assert forall c :: c in cs ==> c.op in {GTE, LT};
    WithOpNone(cs, EQ);
    WithOpNone(cs, NEQ);
    RefsWithNone(cs, {EQ});
    RangePredicateBounds(p);
  }

  lemma {:induction false} RangePredicateBounds(p: RangePredicate)
    ensures var cs := Comparators.Comparators(p);
      RefsWith(cs, {GTE, EQ}) == (if p.start.Some? then [p.start.value] else [])
      && RefsWith(cs, {LT}) == (if p.end.Some? then [p.end.value] else [])
  {
    var cs := Comparators.Comparators(p);
    var lts := if p.end.Some? then [Comparator(LT, p.end.value)] else [];
    RefsWithNone(lts, {GTE, EQ});
    if p.start.Some? {
      assert cs == [Comparator(GTE, p.start.value)] + lts;
      RefsWithCons(Comparator(GTE, p.start.value), lts, {GTE, EQ});
      RefsWithCons(Comparator(GTE, p.start.value), lts, {LT});
    } else {
      assert cs == lts;
    }
    if p.end.Some? {
      RefsWithCons(Comparator(LT, p.end.value), [], {LT});
    }
  }

  /** Normalizing a single accepted range predicate yields exactly its range. */
  lemma {:induction false} SinglePredicate(p: RangePredicate)
    requires V.OptWellFormed(p.start) && V.OptWellFormed(p.end)
    requires MakeRangePredicate(p.start, p.end).Ok?
    ensures Normalize([[Comparators.Comparators(p)]]) == Ok([VersionRange(p.start, p.end)])
  {
    RangePredicatePieces(p);
    CandidatesOne([Comparators.Comparators(p)]);
    NormalizeOne([[Comparators.Comparators(p)]], VersionRange(p.start, p.end));
  }

  lemma {:induction false} CandidatesOne(conj: seq<seq<Comparator>>)
    ensures Candidates([conj]) == Pieces(conj)
  {
    CandidatesSnoc([], conj);
    assert [] + [conj] == [conj];
  }

  lemma {:induction false} CandidatesTwo(x: seq<seq<Comparator>>, y: seq<seq<Comparator>>)
    ensures Candidates([x, y]) == Pieces(x) + Pieces(y)
  {
    CandidatesOne(x);
    CandidatesSnoc([x], y);
    assert [x] + [y] == [x, y];
  }

  /** A formula whose only candidate is one range normalizes to that range. */
  lemma {:induction false} NormalizeOne(f: Formula, r: VersionRange)
    requires Candidates(f) == [r] && V.OptWellFormed(r.end)
    ensures Normalize(f) == Ok([r])
  {
    if r.end.Some? {
      V.CompareIsTotalPreorder(r.end.value, r.end.value, r.end.value);
    }
    assert !SortFails([r]);
    assert InsertionSort([r]) == [r] by {
      assert [r][..0] == [];
    }
  }

  /** Two `<` predicates as alternatives: the ranges `[null, a)` and `[null, b)`, in that order. */
  lemma {:induction false} OpenStartsCandidates(a: V.Version, b: V.Version)
    requires V.WellFormed(a) && V.WellFormed(b)
    ensures Candidates([[Comparators.Comparators(RangePredicate(None, Some(a)))], [Comparators.Comparators(RangePredicate(None, Some(b)))]])
      == [VersionRange(None, Some(a)), VersionRange(None, Some(b))]
  {
    RangePredicatePieces(RangePredicate(None, Some(a)));
    RangePredicatePieces(RangePredicate(None, Some(b)));
    CandidatesTwo([Comparators.Comparators(RangePredicate(None, Some(a)))], [Comparators.Comparators(RangePredicate(None, Some(b)))]);
  }

  /** Two `<` predicates with different ends, as alternatives, make the sort fail. */
  lemma {:induction false} OpenStartsFail(a: V.Version, b: V.Version)
    requires V.WellFormed(a) && V.WellFormed(b) && !V.Equals(a, b)
    ensures Normalize([[Comparators.Comparators(RangePredicate(None, Some(a)))], [Comparators.Comparators(RangePredicate(None, Some(b)))]])
      == Err(IllegalState)
  {
    OpenStartsCandidates(a, b);
    var c := [VersionRange(None, Some(a)), VersionRange(None, Some(b))];
    assert OpenStartClash(c[0], c[1]);
    assert c[0] in c && c[1] in c;
    assert SortFails(c);
  }

  /** The conjunction `>=s <e !=e`, as a range predicate and a NEQ comparator. */
  function NeqAtEndConjunction(s: V.Version, e: V.Version): seq<seq<Comparator>> {
    [Comparators.Comparators(RangePredicate(Some(s), Some(e))), [Comparator(NEQ, e)]]
  }

  lemma {:induction false} NeqAtEndComparators(s: V.Version, e: V.Version)
    ensures Flatten(NeqAtEndConjunction(s, e)) == [Comparator(GTE, s), Comparator(LT, e), Comparator(NEQ, e)]
  {
    var conj := NeqAtEndConjunction(s, e);
    assert Flatten(conj[1..]) == [Comparator(NEQ, e)] + Flatten(conj[1..][1..]);
    assert conj[1..][1..] == [];
  }

  lemma {:induction false} NeqAtEndSets(s: V.Version, e: V.Version)
    ensures var cs := [Comparator(GTE, s), Comparator(LT, e), Comparator(NEQ, e)];
      WithOp(cs, EQ) == [] && NeqSet(cs) == [Comparator(NEQ, e)]
  {
    var cs := [Comparator(GTE, s), Comparator(LT, e), Comparator(NEQ, e)];
    assert cs[..2] == [Comparator(GTE, s), Comparator(LT, e)];
    WithOpNone(cs[..2], NEQ);
    WithOpNone(cs, EQ);
    assert WithOp(cs, NEQ) == [Comparator(NEQ, e)];
    assert Dedup([Comparator(NEQ, e)]) == [Comparator(NEQ, e)] by {
      assert [Comparator(NEQ, e)][..0] == [];
    }
  }

  lemma {:induction false} NeqAtEndBounds(s: V.Version, e: V.Version)
    ensures var cs := [Comparator(GTE, s), Comparator(LT, e), Comparator(NEQ, e)];
      LowerRefs(cs) == [s] && UpperRefs(cs) == [e]
  {
    var cs := [Comparator(GTE, s), Comparator(LT, e), Comparator(NEQ, e)];
    RefsWithNone([Comparator(NEQ, e)], {GTE, EQ});
    RefsWithNone([Comparator(NEQ, e)], {LT});
    RefsWithNone(cs, {EQ});
    assert cs == [Comparator(GTE, s)] + ([Comparator(LT, e)] + [Comparator(NEQ, e)]);
    RefsWithCons(Comparator(GTE, s), [Comparator(LT, e)] + [Comparator(NEQ, e)], {GTE, EQ});
    RefsWithCons(Comparator(GTE, s), [Comparator(LT, e)] + [Comparator(NEQ, e)], {LT});
    RefsWithCons(Comparator(LT, e), [Comparator(NEQ, e)], {GTE, EQ});
    RefsWithCons(Comparator(LT, e), [Comparator(NEQ, e)], {LT});
  }

  lemma {:induction false} NeqAtEndCandidate(s: V.Version, e: V.Version)
    requires V.WellFormed(s) && V.WellFormed(e) && V.Compare(s, e) < 0
    ensures var cs := Flatten(NeqAtEndConjunction(s, e));
      Candidate(cs) == Some(VersionRange(Some(s), Some(e))) && NeqSet(cs) == [Comparator(NEQ, e)]
  {
    NeqAtEndComparators(s, e);
    NeqAtEndSets(s, e);
    NeqAtEndBounds(s, e);
    assert Dedup([]) == [];
  }

  lemma {:induction false} NeqAtEndSplit(s: V.Version, e: V.Version)
    requires V.WellFormed(s) && V.WellFormed(e) && V.Compare(s, e) < 0
    ensures SplitAt([VersionRange(Some(s), Some(e))], e)
      == [VersionRange(Some(s), Some(e)), VersionRange(Some(V.SmallestLarger(e)), Some(e))]
  {
    V.SmallestLargerIsSuccessor(e, e);
    V.CompareIsTotalPreorder(s, e, V.SmallestLarger(e));
    V.CompareIsTotalPreorder(e, e, e);
    V.CompareAntisymmetric(e, V.SmallestLarger(e));
    var c := VersionRange(Some(s), Some(e));
    var upper := VersionRange(Some(V.SmallestLarger(e)), Some(e));
    assert Find([c], e) == Some(0);
    RangeEqualsIsEquivalence(c, c, c);
    assert Remove([c], c) == [] by {
      assert [c][1..] == [];
    }
    assert !RangeEquals(c, upper);
  }

  /**
   * A NEQ reference equal to a finite end is still found by the split, which then adds the
   * inverted range `[smallestLarger(end), end)`; the result is not in canonical form.
   */
  lemma {:induction false} NeqAtUpperEnd(s: V.Version, e: V.Version)
    requires V.WellFormed(s) && V.WellFormed(e) && V.Compare(s, e) < 0
    ensures var upper := VersionRange(Some(V.SmallestLarger(e)), Some(e));
      Normalize([NeqAtEndConjunction(s, e)]) == Ok([VersionRange(Some(s), Some(e)), upper])
      && !NotInverted(upper)
  {
    var c := VersionRange(Some(s), Some(e));
    var upper := VersionRange(Some(V.SmallestLarger(e)), Some(e));
    NeqAtEndOrdered(s, e);
    NeqAtEndPieces(s, e);
    CandidatesOne(NeqAtEndConjunction(s, e));
    NormalizeTwo([NeqAtEndConjunction(s, e)], c, upper);
  }

  /** The inverted range above `e` sorts after `[s, e)` and does not touch it. */
  lemma {:induction false} NeqAtEndOrdered(s: V.Version, e: V.Version)
    requires V.WellFormed(s) && V.WellFormed(e) && V.Compare(s, e) < 0
    ensures var c := VersionRange(Some(s), Some(e));
      var upper := VersionRange(Some(V.SmallestLarger(e)), Some(e));
      KeyCompare(upper, c) >= 0 && !Touches(c, upper) && !NotInverted(upper)
      && !OpenStartClash(c, c) && !OpenStartClash(c, upper)
      && !OpenStartClash(upper, c) && !OpenStartClash(upper, upper)
  {
    V.SmallestLargerIsSuccessor(e, e);
    V.SmallestLargerIsSuccessor(e, s);
    var sl := V.SmallestLarger(e);
    V.CompareIsTotalPreorder(s, e, sl);
    V.CompareAntisymmetric(e, sl);
    V.CompareAntisymmetric(s, sl);
  }

  /** `>=s <e !=e` contributes its range and the inverted range above its end. */
  lemma {:induction false} NeqAtEndPieces(s: V.Version, e: V.Version)
    requires V.WellFormed(s) && V.WellFormed(e) && V.Compare(s, e) < 0
    ensures Pieces(NeqAtEndConjunction(s, e))
      == [VersionRange(Some(s), Some(e)), VersionRange(Some(V.SmallestLarger(e)), Some(e))]
  {
    NeqAtEndCandidate(s, e);
    NeqAtEndSplit(s, e);
    var c := VersionRange(Some(s), Some(e));
    assert SplitAll([c], [Comparator(NEQ, e)]) == SplitAll(SplitAt([c], e), []);
  }

  /**
   * A formula whose candidates are two ranges that never clash, already in order, and that
   * neither intersect nor touch normalizes to those two ranges.
   */
  lemma {:induction false} NormalizeTwo(f: Formula, a: VersionRange, b: VersionRange)
    requires Candidates(f) == [a, b]
    requires !OpenStartClash(a, a) && !OpenStartClash(a, b) && !OpenStartClash(b, a) && !OpenStartClash(b, b)
    requires KeyCompare(b, a) >= 0 && !Touches(a, b)
    ensures Normalize(f) == Ok([a, b])
  {
    SortRangesTwo(a, b);
    MergeTwo(a, b);
    assert [a, b][1..] == [b];
  }

  lemma {:induction false} SortRangesTwo(a: VersionRange, b: VersionRange)
    requires !OpenStartClash(a, a) && !OpenStartClash(a, b) && !OpenStartClash(b, a) && !OpenStartClash(b, b)
    requires KeyCompare(b, a) >= 0
    ensures SortRanges([a, b]) == Ok([a, b])
  {
    assert !SortFails([a, b]);
    SortTwo(a, b);
  }

  lemma {:induction false} MergeTwo(a: VersionRange, b: VersionRange)
    requires !Touches(a, b)
    ensures MergeFrom(a, [b]) == [a, b]
  {
    assert [b][1..] == [];
  }

  lemma {:induction false} SortTwo(a: VersionRange, b: VersionRange)
    requires KeyCompare(b, a) >= 0
    ensures InsertionSort([a, b]) == [a, b]
  {
    assert [a, b][..1] == [a];
    assert [a][..0] == [];
    assert InsertionSort([a]) == [a];
    assert Insert([a], b) == [a] + Insert([], b);
  }
}
