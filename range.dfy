/**
 * Half-open version ranges `[start, end)`, where an absent bound is unbounded: membership,
 * equality, the order used to sort them, the overlap test and rendering.
 */
module VersionRanges {
  import opened Wrappers
  import opened Strings
  import V = Versions

  datatype VersionRange = VersionRange(start: Option<V.Version>, end: Option<V.Version>)

  predicate WellFormed(r: VersionRange) {
    V.OptWellFormed(r.start) && V.OptWellFormed(r.end)
  }

  predicate RangesWellFormed(rs: seq<VersionRange>) {
    forall r :: r in rs ==> WellFormed(r)
  }

  /** `v` lies in `[start, end)`. */
  predicate Contains(r: VersionRange, v: V.Version) {
    (r.start.None? || V.Compare(r.start.value, v) <= 0) && (r.end.None? || V.Compare(v, r.end.value) < 0)
  }

  /** `v` lies in one of the ranges. */
  predicate InRanges(rs: seq<VersionRange>, v: V.Version) {
    exists i :: 0 <= i < |rs| && Contains(rs[i], v)
  }

  /** A range whose bounds are both present and not in increasing order. */
  predicate NotInverted(r: VersionRange) {
    r.start.None? || r.end.None? || V.Compare(r.start.value, r.end.value) < 0
  }

  /** The range that holds no version: `[null, 0.0.0-0)`. */
  const Sentinel: VersionRange := VersionRange(None, Some(V.Least))

  lemma {:induction false} SentinelIsEmpty(v: V.Version)
    requires V.WellFormed(v)
    ensures !Contains(Sentinel, v)
  {
    LeastWellFormed();
    V.LeastIsLeast(v);
    V.CompareAntisymmetric(V.Least, v);
  }

  /** Data-class equality: both bounds equal, null matching only null. */
  function RangeEquals(a: VersionRange, b: VersionRange): bool {
    V.OptEquals(a.start, b.start) && V.OptEquals(a.end, b.end)
  }

  /** Equal ranges hold the same versions. */
  lemma {:induction false} EqualRangesContainAlike(a: VersionRange, b: VersionRange, v: V.Version)
    requires WellFormed(a) && WellFormed(b)
    requires RangeEquals(a, b)
    ensures Contains(a, v) <==> Contains(b, v)
  {
    if a.start.Some? {
      V.CompareSubstitute(a.start.value, b.start.value, v);
    }
    if a.end.Some? {
      V.CompareSubstitute(a.end.value, b.end.value, v);
    }
  }

  /** The data class's `hashCode`: 31 times the start's hash plus the end's, null hashing to 0. */
  function RangeHash(r: VersionRange): int {
    Wrap32(Wrap32(31 * V.OptHash(r.start)) + V.OptHash(r.end))
  }

  /** Range equality on well-formed ranges is an equivalence. */
  lemma {:induction false} RangeEqualsIsEquivalence(a: VersionRange, b: VersionRange, c: VersionRange)
    requires WellFormed(a) && WellFormed(b) && WellFormed(c)
    ensures RangeEquals(a, a)
    ensures RangeEquals(a, b) ==> RangeEquals(b, a)
    ensures RangeEquals(a, b) && RangeEquals(b, c) ==> RangeEquals(a, c)
    ensures RangeEquals(a, b) ==> RangeHash(a) == RangeHash(b)
  {
    V.OptEqualsIsEquivalence(a.start, b.start, c.start);
    V.OptEqualsIsEquivalence(a.end, b.end, c.end);
  }

  /**
   * `compareTo`: equal ranges tie; a null start comes first; present starts compare as versions;
   * between null starts a null end comes first; anything else is an error.
   */
  function Compare(a: VersionRange, b: VersionRange): Result<int> {
    if RangeEquals(a, b) then Ok(0)
    else if a.start.None? && b.start.Some? then Ok(-1)
    else if a.start.Some? && b.start.None? then Ok(1)
    else if a.start.Some? && b.start.Some? then Ok(V.Compare(a.start.value, b.start.value))
    else if a.end.None? && b.end.Some? then Ok(-1)
    else if a.end.Some? && b.end.None? then Ok(1)
    else Err(IllegalState)
  }

  /** The pairs `compareTo` fails on: two null starts with different finite ends. */
  predicate OpenStartClash(a: VersionRange, b: VersionRange) {
    a.start.None? && b.start.None? && a.end.Some? && b.end.Some? && !V.Equals(a.end.value, b.end.value)
  }

  /** A start that is not later: null first, then by version order. */
  predicate StartLe(a: VersionRange, b: VersionRange) {
    a.start.None? || (b.start.Some? && V.Compare(a.start.value, b.start.value) <= 0)
  }

  /**
   * `compareTo` fails exactly on an open-start clash; otherwise it is antisymmetric and puts a
   * range first only when its start is not later.
   */
  lemma {:induction false} CompareProperties(a: VersionRange, b: VersionRange)
    requires WellFormed(a) && WellFormed(b)
    ensures Compare(a, b).Err? <==> OpenStartClash(a, b)
    ensures Compare(a, b).Ok? ==> Compare(b, a).Ok? && Compare(a, b).value == -Compare(b, a).value
    ensures Compare(a, b).Ok? && Compare(a, b).value <= 0 ==> StartLe(a, b)
  {
    RangeEqualsIsEquivalence(a, b, b);
    if a.start.Some? && b.start.Some? {
      V.CompareAntisymmetric(a.start.value, b.start.value);
      V.CompareIsTotalPreorder(a.start.value, b.start.value, b.start.value);
    }
    if a.end.Some? && b.end.Some? {
      V.OptEqualsIsEquivalence(a.end, b.end, b.end);
    }
  }

  lemma {:induction false} StartLeTransitive(a: VersionRange, b: VersionRange, c: VersionRange)
    requires WellFormed(a) && WellFormed(b) && WellFormed(c)
    requires StartLe(a, b) && StartLe(b, c)
    ensures StartLe(a, c)
  {
    if a.start.Some? {
      V.CompareTransitive(a.start.value, b.start.value, c.start.value);
    }
  }

  /** `intersects`: each start lies before the other's end, an absent bound never excluding. */
  function Intersects(a: VersionRange, b: VersionRange): bool {
    (a.start.None? || b.end.None? || V.Compare(a.start.value, b.end.value) < 0)
    && (a.end.None? || b.start.None? || V.Compare(b.start.value, a.end.value) < 0)
  }

  /** A range that holds some version: a present start below the end, or an end above 0.0.0-0. */
  predicate NonEmpty(r: VersionRange) {
    if r.start.Some? then r.end.None? || V.Compare(r.start.value, r.end.value) < 0
    else r.end.None? || V.Compare(V.Least, r.end.value) < 0
  }

  lemma {:induction false} LeastWellFormed()
    ensures V.WellFormed(V.Least)
  {
    V.ZeroPartValid();
  }

  /** A well-formed range is non-empty exactly when it holds a well-formed version. */
  lemma {:induction false} NonEmptyMeansSomeVersion(r: VersionRange)
    requires WellFormed(r)
    ensures NonEmpty(r) <==> exists v :: V.WellFormed(v) && Contains(r, v)
  {
    LeastWellFormed();
    if NonEmpty(r) {
      if r.start.Some? {
        V.CompareIsTotalPreorder(r.start.value, r.start.value, r.start.value);
        assert Contains(r, r.start.value);
      } else {
        assert Contains(r, V.Least);
      }
    }
    if v :| V.WellFormed(v) && Contains(r, v) {
      if r.start.Some? && r.end.Some? {
        V.CompareIsTotalPreorder(r.start.value, v, r.end.value);
      } else if r.end.Some? {
        V.LeastIsLeast(v);
        V.CompareIsTotalPreorder(V.Least, v, r.end.value);
      }
    }
  }

  /** `intersects` is symmetric. */
  lemma {:induction false} IntersectsSymmetric(a: VersionRange, b: VersionRange)
    ensures Intersects(a, b) == Intersects(b, a)
  {
  }

  /** A version in both ranges makes them intersect. */
  lemma {:induction false} CommonVersionIntersects(a: VersionRange, b: VersionRange, v: V.Version)
    requires WellFormed(a) && WellFormed(b) && V.WellFormed(v)
    requires Contains(a, v) && Contains(b, v)
    ensures Intersects(a, b)
  {
    if a.start.Some? && b.end.Some? {
      V.CompareIsTotalPreorder(a.start.value, v, b.end.value);
    }
    if b.start.Some? && a.end.Some? {
      V.CompareIsTotalPreorder(b.start.value, v, a.end.value);
    }
  }

  /** Two non-empty ranges intersect exactly when some version lies in both. */
  lemma {:induction false} IntersectsIffCommonVersion(a: VersionRange, b: VersionRange)
    requires WellFormed(a) && WellFormed(b) && NonEmpty(a) && NonEmpty(b)
    ensures Intersects(a, b) <==> exists v :: V.WellFormed(v) && Contains(a, v) && Contains(b, v)
  {
    if v :| V.WellFormed(v) && Contains(a, v) && Contains(b, v) {
      CommonVersionIntersects(a, b, v);
    }
    if Intersects(a, b) {
      var w := CommonWitness(a, b);
    }
  }

  /** The later of the two starts, or 0.0.0-0 when neither has one, lies in both ranges. */
  lemma {:induction false} CommonWitness(a: VersionRange, b: VersionRange) returns (w: V.Version)
    requires WellFormed(a) && WellFormed(b) && NonEmpty(a) && NonEmpty(b) && Intersects(a, b)
    ensures V.WellFormed(w) && Contains(a, w) && Contains(b, w)
  {
    LeastWellFormed();
    if a.start.Some? && b.start.Some? {
      var s := a.start.value;
      var t := b.start.value;
      V.CompareIsTotalPreorder(s, t, s);
      V.CompareIsTotalPreorder(s, s, t);
      V.CompareIsTotalPreorder(t, t, s);
      if V.Compare(s, t) <= 0 {
        if b.end.Some? {
          V.CompareIsTotalPreorder(s, t, b.end.value);
        }
        w := t;
      } else {
        if a.end.Some? {
          V.CompareIsTotalPreorder(t, s, a.end.value);
        }
        w := s;
      }
    } else if a.start.Some? {
      V.CompareIsTotalPreorder(a.start.value, a.start.value, a.start.value);
      w := a.start.value;
    } else if b.start.Some? {
      V.CompareIsTotalPreorder(b.start.value, b.start.value, b.start.value);
      w := b.start.value;
    } else {
      w := V.Least;
    }
  }

  /** `toString`: "*" when unbounded, otherwise ">=start", " && <end" and "<end" as present. */
  function ToString(r: VersionRange): string {
    if r.start.None? && r.end.None? then "*"
    else if r.start.Some? then
      ">=" + V.ToString(r.start.value) + (if r.end.Some? then " && <" + V.ToString(r.end.value) else "")
    else "<" + V.ToString(r.end.value)
  }

  /**
   * The three renderings are told apart by their first characters: "*" only for the unbounded
   * range, ">=" exactly when there is a start, "<" when there is only an end. Each bound appears
   * as its version's own rendering, and a bounded range joins the two with " && ".
   */
  lemma {:induction false} ToStringShape(r: VersionRange)
    ensures ToString(r) == "*" <==> r.start.None? && r.end.None?
    ensures r.start.Some? <==> |ToString(r)| >= 2 && ToString(r)[..2] == ">="
    ensures r.start.None? && r.end.Some? <==> ToString(r)[0] == '<'
    ensures r.start.Some? && r.end.Some?
            ==> ToString(r) == ">=" + V.ToString(r.start.value) + " && <" + V.ToString(r.end.value)
    ensures r.start.Some? && r.end.None? ==> ToString(r) == ">=" + V.ToString(r.start.value)
    ensures r.start.None? && r.end.Some? ==> ToString(r) == "<" + V.ToString(r.end.value)
  {
    if r.start.Some? {
      assert ToString(r)[..2] == ">=";
    } else if r.end.Some? {
      assert ToString(r)[0] == '<';
      assert |ToString(r)| < 2 || ToString(r)[1] != '=' by {
        var t := V.ToString(r.end.value);
        assert ToString(r) == "<" + t;
        VersionTextStartsWithDigit(r.end.value);
      }
    }
  }

  lemma {:induction false} VersionTextStartsWithDigit(v: V.Version)
    ensures |V.ToString(v)| > 0 && IsDigit(V.ToString(v)[0])
  {
    var m := NatToString(v.major);
    assert V.ToString(v)[0] == m[0];
  }
}
