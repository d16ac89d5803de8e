/**
 * The normalizer's canonical form is unique: two canonical lists that hold the same versions,
 * and whose first ranges agree on having an open start, are equal range by range. Constraint
 * equality compares normalized ranges, so it follows that equality does not depend on the order
 * in which conjunctions, or the predicates inside one, are written, as long as no collected range
 * is inverted; `NeqAtEndOrderMatters` shows that with an inverted range it does.
 */
module NormalForm {
  import opened Wrappers
  import V = Versions
  import opened Comparators
  import opened VersionRanges
  import opened Conjunctions
  import opened Normalizer
  import C = VersionConstraints

  /** Two lists of ranges hold the same well-formed versions. */
  ghost predicate SameVersions(a: seq<VersionRange>, b: seq<VersionRange>) {
    forall v :: V.WellFormed(v) ==> (InRanges(a, v) <==> InRanges(b, v))
  }

  // ---------------------------------------------------------------------------------------
  // Uniqueness of the canonical form

  /** A well-formed version in a non-empty range: its start, or 0.0.0-0 when it has none. */
  lemma {:induction false} SomeMember(r: VersionRange) returns (w: V.Version)
    requires WellFormed(r) && NonEmpty(r)
    ensures V.WellFormed(w) && Contains(r, w)
    ensures r.start.Some? ==> w == r.start.value
  {
    LeastWellFormed();
    if r.start.Some? {
      w := r.start.value;
      V.CompareIsTotalPreorder(w, w, w);
    } else {
      w := V.Least;
    }
  }

  /** No version of a canonical list lies below the start of its first range. */
  lemma {:induction false} HeadStartLowest(rs: seq<VersionRange>, v: V.Version)
    requires RangesWellFormed(rs) && Canonical(rs) && |rs| > 0 && rs[0].start.Some?
    requires V.WellFormed(v) && InRanges(rs, v)
    ensures V.Compare(rs[0].start.value, v) <= 0
  {
    var i :| 0 <= i < |rs| && Contains(rs[i], v);
    assert rs[0] in rs && rs[i] in rs;
    if i > 0 {
      assert EndsBefore(rs[0], rs[i]) && NotInverted(rs[0]);
      V.CompareIsTotalPreorder(rs[0].start.value, rs[0].end.value, rs[i].start.value);
      V.CompareIsTotalPreorder(rs[0].start.value, rs[i].start.value, v);
    }
  }

  /** A canonical list without its first range is canonical and holds what the list holds outside that range. */
  lemma {:induction false} CanonicalRest(rs: seq<VersionRange>, v: V.Version)
    requires RangesWellFormed(rs) && Canonical(rs) && |rs| > 0 && V.WellFormed(v)
    ensures RangesWellFormed(rs[1..]) && Canonical(rs[1..])
    ensures InRanges(rs[1..], v) <==> InRanges(rs, v) && !Contains(rs[0], v)
  {
    var tail := rs[1..];
    assert forall k :: 0 <= k < |tail| ==> tail[k] == rs[k + 1];
    assert forall e :: e in tail ==> e in rs;
    assert Canonical(tail) by {
      forall i, j | 0 <= i < j < |tail|
        ensures EndsBefore(tail[i], tail[j])
      {
        assert EndsBefore(rs[i + 1], rs[j + 1]);
      }
    }
    if InRanges(tail, v) {
      var k :| 0 <= k < |tail| && Contains(tail[k], v);
      assert EndsBefore(rs[0], rs[k + 1]);
      assert rs[0] in rs && rs[k + 1] in rs;
      V.CompareIsTotalPreorder(rs[0].end.value, rs[k + 1].start.value, v);
      V.CompareAntisymmetric(v, rs[0].end.value);
    }
    if InRanges(rs, v) && !Contains(rs[0], v) {
      var k :| 0 <= k < |rs| && Contains(rs[k], v);
      assert Contains(tail[k - 1], v);
    }
  }

  /**
   * When the first ranges of two canonical lists with the same versions start alike, a finite
   * end of the first is matched by a finite end of the second that is not above it.
   */
  lemma {:induction false} EndNotAbove(a: seq<VersionRange>, b: seq<VersionRange>)
    requires RangesWellFormed(a) && RangesWellFormed(b) && Canonical(a) && Canonical(b)
    requires |a| > 0 && |b| > 0 && SameVersions(a, b) && V.OptEquals(a[0].start, b[0].start)
    ensures a[0].end.Some? ==> b[0].end.Some? && V.Compare(a[0].end.value, b[0].end.value) >= 0
  {
    if a[0].end.Some? {
      var e := a[0].end.value;
      assert a[0] in a && b[0] in b && NotInverted(a[0]);
      CanonicalLeavesGaps(a, 0);
      assert !InRanges(b, e);
      assert !Contains(b[0], e);
      if b[0].start.Some? {
        var s := a[0].start.value;
        V.CompareSubstitute(s, b[0].start.value, e);
      }
      if b[0].end.Some? {
        V.CompareAntisymmetric(e, b[0].end.value);
      }
    }
  }

  /** The first ranges of two canonical lists with the same versions, starting alike, end alike. */
  lemma {:induction false} EndsAgree(a: seq<VersionRange>, b: seq<VersionRange>)
    requires RangesWellFormed(a) && RangesWellFormed(b) && Canonical(a) && Canonical(b)
    requires |a| > 0 && |b| > 0 && SameVersions(a, b) && V.OptEquals(a[0].start, b[0].start)
    ensures RangeEquals(a[0], b[0])
  {
    assert a[0] in a && b[0] in b;
    V.OptEqualsIsEquivalence(a[0].start, b[0].start, b[0].start);
    EndNotAbove(a, b);
    EndNotAbove(b, a);
    if a[0].end.Some? && b[0].end.Some? {
      V.CompareAntisymmetric(a[0].end.value, b[0].end.value);
    }
  }

  /** A range that holds no version of a canonical list's first place: `[null, e)` with `e` equal to 0.0.0-0. */
  lemma {:induction false} HollowHead(rs: seq<VersionRange>)
    requires RangesWellFormed(rs) && Canonical(rs) && |rs| > 0 && !NonEmpty(rs[0])
    ensures rs[0].start.None? && rs[0].end.Some? && V.Equals(rs[0].end.value, V.Least)
    ensures forall v :: V.WellFormed(v) ==> !Contains(rs[0], v)
    ensures !InRanges(rs, V.Least)
  {
    assert rs[0] in rs && NotInverted(rs[0]);
    LeastWellFormed();
    var e := rs[0].end.value;
    V.LeastIsLeast(e);
    V.CompareAntisymmetric(V.Least, e);
    forall v | V.WellFormed(v)
      ensures !Contains(rs[0], v)
    {
      V.LeastIsLeast(v);
      V.CompareSubstitute(e, V.Least, v);
      V.CompareAntisymmetric(v, e);
    }
    forall k | 0 < k < |rs|
      ensures !Contains(rs[k], V.Least)
    {
      assert rs[k] in rs && EndsBefore(rs[0], rs[k]);
      V.CompareSubstitute(e, V.Least, rs[k].start.value);
      V.CompareAntisymmetric(V.Least, rs[k].start.value);
    }
  }

  /** After their first ranges, every range of a canonical list starts and is non-empty. */
  lemma {:induction false} LaterRangesNonEmpty(rs: seq<VersionRange>)
    requires RangesWellFormed(rs) && Canonical(rs)
    ensures forall k :: 0 < k < |rs| ==> rs[k].start.Some? && NonEmpty(rs[k])
  {
    forall k | 0 < k < |rs|
      ensures rs[k].start.Some? && NonEmpty(rs[k])
    {
      assert EndsBefore(rs[0], rs[k]) && NotInverted(rs[k]);
    }
  }

  /** Two canonical lists whose first ranges hold the same versions hold the same versions after them. */
  lemma {:induction false} SameRests(a: seq<VersionRange>, b: seq<VersionRange>)
    requires RangesWellFormed(a) && RangesWellFormed(b) && Canonical(a) && Canonical(b)
    requires |a| > 0 && |b| > 0 && SameVersions(a, b)
    requires forall v :: V.WellFormed(v) ==> (Contains(a[0], v) <==> Contains(b[0], v))
    ensures RangesWellFormed(a[1..]) && RangesWellFormed(b[1..]) && Canonical(a[1..]) && Canonical(b[1..])
    ensures SameVersions(a[1..], b[1..])
  {
    forall v | V.WellFormed(v)
      ensures InRanges(a[1..], v) <==> InRanges(b[1..], v)
    {
      CanonicalRest(a, v);
      CanonicalRest(b, v);
    }
    LeastWellFormed();
    CanonicalRest(a, V.Least);
    CanonicalRest(b, V.Least);
  }

  /** Lists that agree on their first ranges and, range by range, after them, are equal. */
  lemma {:induction false} EqualFirstAndRest(a: seq<VersionRange>, b: seq<VersionRange>)
    requires |a| > 0 && |b| > 0 && RangeEquals(a[0], b[0]) && C.RangeListEquals(a[1..], b[1..])
    ensures C.RangeListEquals(a, b)
  {
    forall i | 0 <= i < |a|
      ensures RangeEquals(a[i], b[i])
    {
      if i > 0 {
        assert a[1..][i - 1] == a[i] && b[1..][i - 1] == b[i];
      }
    }
  }

  /** A non-empty first range holds some version of the list. */
  lemma {:induction false} FirstHoldsSome(rs: seq<VersionRange>)
    requires RangesWellFormed(rs) && |rs| > 0 && NonEmpty(rs[0])
    ensures exists v :: V.WellFormed(v) && InRanges(rs, v)
  {
    assert rs[0] in rs;
    var w := SomeMember(rs[0]);
    assert InRanges(rs, w);
  }

  /**
   * Two canonical lists of non-empty ranges with the same versions, whose first ranges agree on
   * having an open start, are equal range by range.
   */
  lemma {:induction false} NonEmptyUnique(a: seq<VersionRange>, b: seq<VersionRange>)
    requires RangesWellFormed(a) && RangesWellFormed(b) && Canonical(a) && Canonical(b)
    requires forall k :: 0 <= k < |a| ==> NonEmpty(a[k])
    requires forall k :: 0 <= k < |b| ==> NonEmpty(b[k])
    requires SameVersions(a, b)
    requires |a| > 0 && |b| > 0 ==> (a[0].start.None? <==> b[0].start.None?)
    ensures C.RangeListEquals(a, b)
    decreases |a| + |b|
  {
    if |a| > 0 && |b| == 0 {
      FirstHoldsSome(a);
    } else if |a| == 0 && |b| > 0 {
      FirstHoldsSome(b);
    } else if |a| > 0 {
      assert a[0] in a && b[0] in b;
      if a[0].start.Some? {
        var s := SomeMember(a[0]);
        var t := SomeMember(b[0]);
        assert InRanges(a, s) && InRanges(b, t);
        HeadStartLowest(b, s);
        HeadStartLowest(a, t);
        V.CompareAntisymmetric(s, t);
      }
      EndsAgree(a, b);
      forall v | V.WellFormed(v)
        ensures Contains(a[0], v) <==> Contains(b[0], v)
      {
        EqualRangesContainAlike(a[0], b[0], v);
      }
      SameRests(a, b);
      LaterRangesNonEmpty(a);
      LaterRangesNonEmpty(b);
      assert forall k :: 0 <= k < |a[1..]| ==> a[1..][k] == a[k + 1];
      assert forall k :: 0 <= k < |b[1..]| ==> b[1..][k] == b[k + 1];
      NonEmptyUnique(a[1..], b[1..]);
      EqualFirstAndRest(a, b);
    }
  }

  /** Two canonical lists with the same versions whose first ranges both hold nothing are equal range by range. */
  lemma {:induction false} HollowHeadsUnique(a: seq<VersionRange>, b: seq<VersionRange>)
    requires RangesWellFormed(a) && RangesWellFormed(b) && Canonical(a) && Canonical(b)
    requires |a| > 0 && |b| > 0 && SameVersions(a, b)
    requires !NonEmpty(a[0]) && !NonEmpty(b[0])
    ensures C.RangeListEquals(a, b)
  {
    HollowHead(a);
    HollowHead(b);
    assert a[0] in a && b[0] in b;
    LeastWellFormed();
    V.OptEqualsIsEquivalence(a[0].end, Some(V.Least), b[0].end);
    V.OptEqualsIsEquivalence(b[0].end, Some(V.Least), Some(V.Least));
    SameRests(a, b);
    LaterRangesNonEmpty(a);
    LaterRangesNonEmpty(b);
    assert forall k :: 0 <= k < |a[1..]| ==> a[1..][k] == a[k + 1];
    assert forall k :: 0 <= k < |b[1..]| ==> b[1..][k] == b[k + 1];
    NonEmptyUnique(a[1..], b[1..]);
    EqualFirstAndRest(a, b);
  }

  /**
   * The canonical form is unique: two non-empty canonical lists with the same versions, whose
   * first ranges agree on having an open start, are equal range by range.
   */
  lemma {:induction false} CanonicalUnique(a: seq<VersionRange>, b: seq<VersionRange>)
    requires RangesWellFormed(a) && RangesWellFormed(b) && Canonical(a) && Canonical(b)
    requires |a| > 0 && |b| > 0 && SameVersions(a, b)
    requires a[0].start.None? <==> b[0].start.None?
    ensures C.RangeListEquals(a, b)
  {
    if !NonEmpty(a[0]) {
      HollowFirst(a, b);
      HollowHeadsUnique(a, b);
    } else if !NonEmpty(b[0]) {
      assert SameVersions(b, a);
      HollowFirst(b, a);
    } else {
      LaterRangesNonEmpty(a);
      LaterRangesNonEmpty(b);
      NonEmptyUnique(a, b);
    }
  }

  /** When the first range of one list holds nothing, neither does the first range of the other. */
  lemma {:induction false} HollowFirst(a: seq<VersionRange>, b: seq<VersionRange>)
    requires RangesWellFormed(a) && RangesWellFormed(b) && Canonical(a) && Canonical(b)
    requires |a| > 0 && |b| > 0 && SameVersions(a, b)
    requires a[0].start.None? <==> b[0].start.None?
    requires !NonEmpty(a[0])
    ensures !NonEmpty(b[0])
  {
    HollowHead(a);
    LeastWellFormed();
  }

  // ---------------------------------------------------------------------------------------
  // The normalizer's result depends only on what the formula admits

  /** Some range has no start. */
  predicate OpenStart(rs: seq<VersionRange>) {
    exists r :: r in rs && r.start.None?
  }

  /** Merging keeps the start of the range it begins with. */
  lemma {:induction false} MergeKeepsFirstStart(current: VersionRange, rest: seq<VersionRange>)
    ensures MergeFrom(current, rest)[0].start == current.start
    decreases |rest|
  {
    if |rest| > 0 && Touches(current, rest[0]) {
      MergeKeepsFirstStart(MergedWith(current, rest[0]), rest[1..]);
    }
  }

  /** A sort that succeeds puts an open-start range first exactly when there is one. */
  lemma {:induction false} SortedFirstOpen(c: seq<VersionRange>)
    requires RangesWellFormed(c) && !SortFails(c) && |c| > 0
    ensures |InsertionSort(c)| > 0
    ensures InsertionSort(c)[0].start.None? <==> OpenStart(c)
  {
    var s := InsertionSort(c);
    assert forall e :: e in s <==> e in multiset(s);
    assert forall e :: e in c <==> e in multiset(c);
    assert c[0] in multiset(s);
    SortFacts(c);
    assert s[0] in s;
    if OpenStart(c) {
      var r :| r in c && r.start.None?;
      var k :| 0 <= k < |s| && s[k] == r;
      if k > 0 {
        assert StartLe(s[0], s[k]);
      }
    }
  }

  /**
   * The first normalized range has an open start exactly when nothing was collected or some
   * collected range has no start.
   */
  lemma {:induction false} NormalizedFirstStart(f: Formula)
    requires FormulaWellFormed(f) && Normalize(f).Ok?
    ensures Normalize(f).value[0].start.None? <==> Candidates(f) == [] || OpenStart(Candidates(f))
  {
    var c := Candidates(f);
    LeastWellFormed();
    CandidatesMeaning(f, V.Least);
    NormalizeMeaning(f, V.Least);
    if |c| > 0 {
      SortedFirstOpen(c);
      var s := InsertionSort(c);
      MergeKeepsFirstStart(s[0], s[1..]);
    }
  }


  /** A formula that collects some range, none of them open-start or inverted, admits some version. */
  lemma {:induction false} CollectedAdmitsSome(f: Formula) returns (w: V.Version)
    requires FormulaWellFormed(f) && forall r :: r in Candidates(f) ==> NotInverted(r)
    requires Candidates(f) != [] && !OpenStart(Candidates(f))
    ensures V.WellFormed(w) && Satisfies(f, w)
  {
    var c := Candidates(f);
    LeastWellFormed();
    CandidatesMeaning(f, V.Least);
    assert c[0] in c;
    w := SomeMember(c[0]);
    CandidatesMeaning(f, w);
    assert InRanges(c, w);
  }

  /**
   * Formulas that admit the same versions, collect no inverted range and agree on whether some
   * collected range has an open start normalize, when both succeed, to equal range lists.
   */
  lemma {:induction false} SameMeaningSameRanges(f1: Formula, f2: Formula)
    requires FormulaWellFormed(f1) && FormulaWellFormed(f2)
    requires forall r :: r in Candidates(f1) ==> NotInverted(r)
    requires forall r :: r in Candidates(f2) ==> NotInverted(r)
    requires forall v :: V.WellFormed(v) ==> (Satisfies(f1, v) <==> Satisfies(f2, v))
    requires OpenStart(Candidates(f1)) <==> OpenStart(Candidates(f2))
    requires Normalize(f1).Ok? && Normalize(f2).Ok?
    ensures C.RangeListEquals(Normalize(f1).value, Normalize(f2).value)
  {
    var n1, n2 := Normalize(f1).value, Normalize(f2).value;
    forall v | V.WellFormed(v)
      ensures InRanges(n1, v) <==> InRanges(n2, v)
    {
      NormalizeMeaning(f1, v);
      NormalizeMeaning(f2, v);
    }
    LeastWellFormed();
    NormalizeMeaning(f1, V.Least);
    NormalizeMeaning(f2, V.Least);
    NormalizeCanonical(f1);
    NormalizeCanonical(f2);
    NormalizedFirstStart(f1);
    NormalizedFirstStart(f2);
    if Candidates(f1) == [] && Candidates(f2) != [] && !OpenStart(Candidates(f2)) {
      var w := CollectedAdmitsSome(f2);
      CandidatesMeaning(f1, w);
    }
    if Candidates(f2) == [] && Candidates(f1) != [] && !OpenStart(Candidates(f1)) {
      var w := CollectedAdmitsSome(f1);
      CandidatesMeaning(f2, w);
    }
    CanonicalUnique(n1, n2);
  }

  // ---------------------------------------------------------------------------------------
  // Reordering the conjunctions

  /** A range is collected exactly when some conjunction contributes it. */
  lemma {:induction false} CollectedFrom(f: Formula)
    ensures forall r :: r in Candidates(f) <==> exists k :: 0 <= k < |f| && r in Pieces(f[k])
  {
    if |f| > 0 {
      var init, last := f[..|f| - 1], f[|f| - 1];
      var before, added := Candidates(init), Pieces(last);
      assert f == init + [last];
      CandidatesSnoc(init, last);
      CollectedFrom(init);
      forall r
        ensures r in Candidates(f) <==> exists k :: 0 <= k < |f| && r in Pieces(f[k])
      {
        assert r in Candidates(f) <==> r in before || r in added;
        if r in before {
          var k :| 0 <= k < |init| && r in Pieces(init[k]);
          assert init[k] == f[k];
        }
        if k :| 0 <= k < |f| && r in Pieces(f[k]) {
          if k < |init| {
            assert init[k] == f[k];
          }
        }
      }
    }
  }


  /** Formulas made of the same conjunctions, in any order and number, collect and admit alike. */
  lemma {:induction false} ReorderedAlike(f1: Formula, f2: Formula)
    requires forall x :: x in f1 <==> x in f2
    ensures forall r :: r in Candidates(f1) <==> r in Candidates(f2)
    ensures forall v :: Satisfies(f1, v) <==> Satisfies(f2, v)
    ensures FormulaWellFormed(f1) <==> FormulaWellFormed(f2)
  {
    CollectedFrom(f1);
    CollectedFrom(f2);
    assert forall k :: 0 <= k < |f1| ==> f1[k] in f2;
    assert forall k :: 0 <= k < |f2| ==> f2[k] in f1;
  }

  /**
   * Writing the conjunctions in another order, or repeating one, does not change the normalized
   * ranges when no collected range is inverted: the sort fails for both or for neither, and
   * otherwise the results are equal range by range.
   */
  lemma {:induction false} ReorderedDisjunctsNormalizeAlike(f1: Formula, f2: Formula)
    requires FormulaWellFormed(f1) && forall r :: r in Candidates(f1) ==> NotInverted(r)
    requires forall x :: x in f1 <==> x in f2
    ensures Normalize(f1).Ok? <==> Normalize(f2).Ok?
    ensures Normalize(f1).Ok? ==> C.RangeListEquals(Normalize(f1).value, Normalize(f2).value)
  {
    ReorderedAlike(f1, f2);
    LeastWellFormed();
    NormalizeMeaning(f1, V.Least);
    NormalizeMeaning(f2, V.Least);
    var c1, c2 := Candidates(f1), Candidates(f2);
    assert SortFails(c1) <==> SortFails(c2);
    assert OpenStart(c1) <==> OpenStart(c2);
    if Normalize(f1).Ok? {
      SameMeaningSameRanges(f1, f2);
    }
  }

  // ---------------------------------------------------------------------------------------
  // Regrouping the predicates of a conjunction

  /** Some comparator bounds from below: `>=` or `=`. */
  predicate BoundedBelow(cs: seq<Comparator>) {
    exists c :: c in cs && (c.op == GTE || c.op == EQ)
  }

  /** A comparator of the flattened conjunction is one of some predicate, and the other way round. */
  lemma {:induction false} FlattenMembers(conj: seq<seq<Comparator>>)
    ensures forall c :: c in Flatten(conj) <==> exists p :: 0 <= p < |conj| && c in conj[p]
  {
    if |conj| > 0 {
      FlattenMembers(conj[1..]);
      assert Flatten(conj) == conj[0] + Flatten(conj[1..]);
      assert forall p :: 1 <= p < |conj| ==> conj[p] == conj[1..][p - 1];
      forall c | c in Flatten(conj)
        ensures exists p :: 0 <= p < |conj| && c in conj[p]
      {
        if c !in conj[0] {
          assert c in Flatten(conj[1..]);
          var p :| 0 <= p < |conj[1..]| && c in conj[1..][p];
          assert c in conj[p + 1];
        }
      }
    }
  }


  /** A split at one reference leaves an open-start range exactly when there was one. */
  lemma {:induction false} SplitAtOpen(rs: seq<VersionRange>, x: V.Version)
    ensures OpenStart(SplitAt(rs, x)) <==> OpenStart(rs)
  {
    var f := Find(rs, x);
    if f.Some? {
      var r := rs[f.value];
      var upper := VersionRange(Some(V.SmallestLarger(x)), r.end);
      var lower := VersionRange(r.start, Some(x));
      var rs1 := Remove(rs, r);
      var rs2 := if !V.OptEquals(r.start, Some(x)) then Add(rs1, lower) else rs1;
      var out := SplitAt(rs, x);
      assert out == if !V.OptEquals(Some(V.SmallestLarger(x)), r.end) then Add(rs2, upper) else rs2;
      assert r in rs;
      RemoveMembers(rs, r);
      AddMembers(rs1, lower);
      AddMembers(rs2, upper);
      if OpenStart(rs) {
        var e :| e in rs && e.start.None?;
        if !RangeEquals(e, r) {
          assert e in out;
        } else if lower in rs2 {
          assert lower in out;
        } else {
          var k :| 0 <= k < |rs1| && RangeEquals(rs1[k], lower);
          assert rs1[k] in rs1 && rs1[k] in out;
        }
      }
      if OpenStart(out) {
        var e :| e in out && e.start.None?;
        assert e in rs1 || e == lower;
      }
    }
  }

  /** The split loop leaves an open-start range exactly when there was one. */
  lemma {:induction false} SplitAllOpen(rs: seq<VersionRange>, neqs: seq<Comparator>)
    ensures OpenStart(SplitAll(rs, neqs)) <==> OpenStart(rs)
    decreases |neqs|
  {
    if |neqs| > 0 {
      SplitAtOpen(rs, neqs[0].reference);
      SplitAllOpen(SplitAt(rs, neqs[0].reference), neqs[1..]);
    }
  }

  /** A conjunction contributes an open-start range exactly when none of its comparators bounds from below. */
  lemma {:induction false} OpenPieces(conj: seq<seq<Comparator>>)
    ensures OpenStart(Pieces(conj)) <==> !BoundedBelow(Flatten(conj))
  {
    var cs := Flatten(conj);
    var c := Candidate(cs);
    if BoundedBelow(cs) {
      var b :| b in cs && (b.op == GTE || b.op == EQ);
      RefsWithMembers(cs, {GTE, EQ});
      assert b.reference in LowerRefs(cs);
      if c.Some? {
        SplitAllOpen([c.value], NeqSet(cs));
      }
    } else {
      WithOpNone(cs, EQ);
      RefsWithNone(cs, {GTE, EQ});
      assert Dedup([]) == [];
      assert c == Some(VersionRange(None, MinOrNull(UpperRefs(cs))));
      SplitAllOpen([c.value], NeqSet(cs));
      assert c.value in [c.value];
    }
  }

  /** The flattened comparators all hold exactly when each of them holds. */
  lemma {:induction false} AllHoldMembers(cs: seq<Comparator>, v: V.Version)
    ensures AllHold(cs, v) <==> forall c :: c in cs ==> Holds(c, v)
  {
    if AllHold(cs, v) {
      forall c | c in cs
        ensures Holds(c, v)
      {
        var i :| 0 <= i < |cs| && cs[i] == c;
      }
    }
  }

  /** Conjunctions with the same comparators, however grouped, admit the same versions. */
  lemma {:induction false} RegroupedConjAdmits(x: seq<seq<Comparator>>, y: seq<seq<Comparator>>, v: V.Version)
    requires forall c :: c in Flatten(x) <==> c in Flatten(y)
    ensures SatisfiesAll(x, v) <==> SatisfiesAll(y, v)
  {
    FlattenMeaning(x, v);
    FlattenMeaning(y, v);
    AllHoldMembers(Flatten(x), v);
    AllHoldMembers(Flatten(y), v);
  }

  /** Conjunctions with the same comparators, however grouped, both contribute an open-start range or neither does. */
  lemma {:induction false} RegroupedConjOpen(x: seq<seq<Comparator>>, y: seq<seq<Comparator>>)
    requires forall c :: c in Flatten(x) <==> c in Flatten(y)
    ensures OpenStart(Pieces(x)) <==> OpenStart(Pieces(y))
  {
    OpenPieces(x);
    OpenPieces(y);
  }

  /** Regrouping the comparators of a well-formed conjunction keeps it well-formed. */
  lemma {:induction false} RegroupedConjWellFormed(x: seq<seq<Comparator>>, y: seq<seq<Comparator>>)
    requires ConjWellFormed(x) && forall c :: c in Flatten(x) <==> c in Flatten(y)
    ensures ConjWellFormed(y)
  {
    var fx := Flatten(x);
    FlattenMeaning(x, V.Least);
    FlattenMembers(y);
    forall p | 0 <= p < |y|
      ensures RefsWellFormed(y[p])
    {
      forall i | 0 <= i < |y[p]|
        ensures V.WellFormed(y[p][i].reference)
      {
        assert y[p][i] in Flatten(y);
        var j :| 0 <= j < |fx| && fx[j] == y[p][i];
      }
    }
  }

  /** Some collected range is open-start exactly when some conjunction contributes one. */
  lemma {:induction false} OpenCollected(f: Formula)
    ensures OpenStart(Candidates(f)) <==> exists k :: 0 <= k < |f| && OpenStart(Pieces(f[k]))
  {
    CollectedFrom(f);
    if OpenStart(Candidates(f)) {
      var r :| r in Candidates(f) && r.start.None?;
      var k :| 0 <= k < |f| && r in Pieces(f[k]);
      assert OpenStart(Pieces(f[k]));
    }
    if k :| 0 <= k < |f| && OpenStart(Pieces(f[k])) {
      var r :| r in Pieces(f[k]) && r.start.None?;
      assert r in Candidates(f);
    }
  }

  /** Formulas whose conjunctions, place by place, hold the same comparators admit the same versions. */
  lemma {:induction false} RegroupedFormulasAdmit(f1: Formula, f2: Formula)
    requires |f1| == |f2|
    requires forall k :: 0 <= k < |f1| ==> forall c :: c in Flatten(f1[k]) <==> c in Flatten(f2[k])
    ensures forall v :: Satisfies(f1, v) <==> Satisfies(f2, v)
  {
    forall v
      ensures Satisfies(f1, v) <==> Satisfies(f2, v)
    {
      if k :| 0 <= k < |f1| && SatisfiesAll(f1[k], v) {
        RegroupedConjAdmits(f1[k], f2[k], v);
      }
      if k :| 0 <= k < |f2| && SatisfiesAll(f2[k], v) {
        RegroupedConjAdmits(f1[k], f2[k], v);
      }
    }
  }

  /** Formulas whose conjunctions, place by place, hold the same comparators both collect an open-start range or neither does. */
  lemma {:induction false} RegroupedFormulasOpen(f1: Formula, f2: Formula)
    requires |f1| == |f2|
    requires forall k :: 0 <= k < |f1| ==> forall c :: c in Flatten(f1[k]) <==> c in Flatten(f2[k])
    ensures OpenStart(Candidates(f1)) <==> OpenStart(Candidates(f2))
  {
    OpenCollected(f1);
    OpenCollected(f2);
    forall k | 0 <= k < |f1|
      ensures OpenStart(Pieces(f1[k])) <==> OpenStart(Pieces(f2[k]))
    {
      RegroupedConjOpen(f1[k], f2[k]);
    }
  }

  /** Formulas whose conjunctions, place by place, hold the same comparators are well-formed alike. */
  lemma {:induction false} RegroupedFormulasWellFormed(f1: Formula, f2: Formula)
    requires FormulaWellFormed(f1) && |f1| == |f2|
    requires forall k :: 0 <= k < |f1| ==> forall c :: c in Flatten(f1[k]) <==> c in Flatten(f2[k])
    ensures FormulaWellFormed(f2)
  {
    forall k | 0 <= k < |f2|
      ensures ConjWellFormed(f2[k])
    {
      RegroupedConjWellFormed(f1[k], f2[k]);
    }
  }

  /**
   * Reordering the predicates inside conjunctions, or the comparators inside predicates, or
   * regrouping them, does not change the normalized ranges when no collected range is inverted.
   */
  lemma {:induction false} RegroupedPredicatesNormalizeAlike(f1: Formula, f2: Formula)
    requires FormulaWellFormed(f1)
    requires |f1| == |f2|
    requires forall k :: 0 <= k < |f1| ==> forall c :: c in Flatten(f1[k]) <==> c in Flatten(f2[k])
    requires forall r :: r in Candidates(f1) ==> NotInverted(r)
    requires forall r :: r in Candidates(f2) ==> NotInverted(r)
    requires Normalize(f1).Ok? && Normalize(f2).Ok?
    ensures C.RangeListEquals(Normalize(f1).value, Normalize(f2).value)
  {
    RegroupedFormulasAdmit(f1, f2);
    RegroupedFormulasOpen(f1, f2);
    RegroupedFormulasWellFormed(f1, f2);
    SameMeaningSameRanges(f1, f2);
  }

  /** Predicates of a conjunction written in another order give the same comparators. */
  lemma {:induction false} PermutedPredicatesSameComparators(x: seq<seq<Comparator>>, y: seq<seq<Comparator>>)
    requires multiset(x) == multiset(y)
    ensures forall c :: c in Flatten(x) <==> c in Flatten(y)
  {
    FlattenMembers(x);
    FlattenMembers(y);
    assert forall p :: 0 <= p < |x| ==> x[p] in multiset(y);
    assert forall p :: 0 <= p < |y| ==> y[p] in multiset(x);
  }

  // ---------------------------------------------------------------------------------------
  // Constraint equality

  /**
   * Constraints built from the same conjunctions, in any order, with the same preferred version,
   * are built alike and are equal when no collected range is inverted.
   */
  lemma {:induction false} ReorderedConstraintsEqual(f1: Formula, f2: Formula, preferred: Option<V.Version>)
    requires FormulaWellFormed(f1) && forall r :: r in Candidates(f1) ==> NotInverted(r)
    requires forall x :: x in f1 <==> x in f2
    requires V.OptWellFormed(preferred)
    ensures C.Build(f1, preferred).Ok? <==> C.Build(f2, preferred).Ok?
    ensures C.Build(f1, preferred).Ok? ==> C.Equals(C.Build(f1, preferred).value, C.Build(f2, preferred).value)
  {
    ReorderedDisjunctsNormalizeAlike(f1, f2);
    V.OptEqualsIsEquivalence(preferred, preferred, preferred);
  }

  // ---------------------------------------------------------------------------------------
  // With an inverted range the order matters

  /** Three ranges already in `compareTo` order stay in place under the stable sort. */
  lemma {:induction false} SortThreeInOrder(a: VersionRange, b: VersionRange, d: VersionRange)
    requires KeyCompare(b, a) >= 0 && KeyCompare(d, a) >= 0 && KeyCompare(d, b) >= 0
    ensures InsertionSort([a, b, d]) == [a, b, d]
  {
    assert [a, b, d][..2] == [a, b];
    SortTwo(a, b);
    assert Insert([a, b], d) == [a] + Insert([b], d);
    assert Insert([b], d) == [b] + Insert([], d);
  }

  /** The stable sort moves a first range behind a smaller second one, and keeps a third level one behind it. */
  lemma {:induction false} SortThreeSwapped(d: VersionRange, a: VersionRange, b: VersionRange)
    requires KeyCompare(a, d) < 0 && KeyCompare(b, a) >= 0 && KeyCompare(b, d) >= 0
    ensures InsertionSort([d, a, b]) == [a, d, b]
  {
    assert [d, a, b][..2] == [d, a];
    assert [d, a][..1] == [d];
    assert [d][..0] == [];
    assert InsertionSort([d, a]) == Insert([d], a) == [a, d];
    assert Insert([a, d], b) == [a] + Insert([d], b);
    assert Insert([d], b) == [d] + Insert([], b);
  }

  /** Three ranges none of which touches the next stay apart under the merge. */
  lemma {:induction false} MergeThree(a: VersionRange, b: VersionRange, d: VersionRange)
    requires !Touches(a, b) && !Touches(b, d)
    ensures MergeFrom(a, [b, d]) == [a, b, d]
  {
    assert [b, d][1..] == [d];
    MergeTwo(b, d);
  }

  /** A formula whose collected ranges sort without failure normalizes to the merge of the sorted list. */
  lemma {:induction false} NormalizeSorted(f: Formula, sorted: seq<VersionRange>)
    requires !SortFails(Candidates(f)) && InsertionSort(Candidates(f)) == sorted && |sorted| > 0
    ensures Normalize(f) == Ok(MergeFrom(sorted[0], sorted[1..]))
  {
  }

  /** The ranges of the counterexample: `[s, e)`, the inverted `[succ(e), e)` and `[succ(e), null)`. */
  lemma {:induction false} OrderMattersRanges(s: V.Version, e: V.Version)
    requires V.WellFormed(s) && V.WellFormed(e) && V.Compare(s, e) < 0
    ensures var sl := V.SmallestLarger(e);
      var c := VersionRange(Some(s), Some(e));
      var upper := VersionRange(Some(sl), Some(e));
      var tail := VersionRange(Some(sl), None);
      KeyCompare(upper, c) >= 0 && KeyCompare(tail, c) >= 0 && KeyCompare(c, tail) < 0
      && KeyCompare(tail, upper) == 0 && KeyCompare(upper, tail) == 0
      && !Touches(c, upper) && !Touches(upper, tail) && !Touches(c, tail) && !Touches(tail, upper)
      && !RangeEquals(upper, tail)
      && !SortFails([c, upper, tail]) && !SortFails([tail, c, upper])
  {
    var sl := V.SmallestLarger(e);
    V.SmallestLargerIsSuccessor(e, e);
    V.CompareIsTotalPreorder(s, e, sl);
    V.CompareIsTotalPreorder(sl, sl, sl);
    V.CompareAntisymmetric(s, sl);
    V.CompareAntisymmetric(e, sl);
  }

  /** The counterexample's two formulas collect the same three ranges, in different orders. */
  lemma {:induction false} OrderMattersCandidates(s: V.Version, e: V.Version)
    requires V.WellFormed(s) && V.WellFormed(e) && V.Compare(s, e) < 0
    ensures var sl := V.SmallestLarger(e);
      var x := NeqAtEndConjunction(s, e);
      var y := [Comparators.Comparators(RangePredicate(Some(sl), None))];
      var c := VersionRange(Some(s), Some(e));
      var upper := VersionRange(Some(sl), Some(e));
      var tail := VersionRange(Some(sl), None);
      Candidates([x, y]) == [c, upper, tail] && Candidates([y, x]) == [tail, c, upper]
  {
    var sl := V.SmallestLarger(e);
    V.SmallestLargerIsSuccessor(e, e);
    var x := NeqAtEndConjunction(s, e);
    var y := [Comparators.Comparators(RangePredicate(Some(sl), None))];
    NeqAtEndPieces(s, e);
    RangePredicatePieces(RangePredicate(Some(sl), None));
    CandidatesTwo(x, y);
    CandidatesTwo(y, x);
  }

  /**
   * `>=s <e !=e` or `>=succ(e)`, and the same two alternatives swapped, admit the same versions,
   * yet normalize to range lists that are not equal: the inverted range `[succ(e), e)` left by
   * the split sorts level with `[succ(e), null)` and keeps its place in the input.
   */
  lemma {:induction false} NeqAtEndOrderMatters(s: V.Version, e: V.Version)
    requires V.WellFormed(s) && V.WellFormed(e) && V.Compare(s, e) < 0
    ensures var x := NeqAtEndConjunction(s, e);
      var y := [Comparators.Comparators(RangePredicate(Some(V.SmallestLarger(e)), None))];
      Normalize([x, y]).Ok? && Normalize([y, x]).Ok?
      && (forall v :: Satisfies([x, y], v) <==> Satisfies([y, x], v))
      && !C.RangeListEquals(Normalize([x, y]).value, Normalize([y, x]).value)
  {
    var sl := V.SmallestLarger(e);
    var x := NeqAtEndConjunction(s, e);
    var y := [Comparators.Comparators(RangePredicate(Some(sl), None))];
    var c := VersionRange(Some(s), Some(e));
    var upper := VersionRange(Some(sl), Some(e));
    var tail := VersionRange(Some(sl), None);
    OrderMattersRanges(s, e);
    OrderMattersCandidates(s, e);
    SortThreeInOrder(c, upper, tail);
    SortThreeSwapped(tail, c, upper);
    NormalizeSorted([x, y], [c, upper, tail]);
    NormalizeSorted([y, x], [c, tail, upper]);
    assert [c, upper, tail][1..] == [upper, tail];
    assert [c, tail, upper][1..] == [tail, upper];
    MergeThree(c, upper, tail);
    MergeThree(c, tail, upper);
    ReorderedAlike([x, y], [y, x]);
  }
}
