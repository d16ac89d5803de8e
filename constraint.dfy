/**
 * A version constraint: the predicates a format parsed, an optional preferred version, and the
 * ranges the normalizer computes from the predicates when the constraint is built. Satisfaction
 * is a binary search over those ranges followed by the pre-release rule.
 */
module VersionConstraints {
  import opened Wrappers
  import opened Strings
  import V = Versions
  import opened VersionRanges
  import opened Normalizer

  /** The constraint's state; `ranges` is computed once, from `predicates`, when it is built. */
  datatype VersionConstraint = VersionConstraint(predicates: Formula, preferred: Option<V.Version>, ranges: seq<VersionRange>)

  /** What a constraint format's `parse` hands back: the OR-list of AND-lists, and a preferred version. */
  type Parsed = (Formula, Option<V.Version>)

  /** The format produced no conjunctions, or only empty ones. */
  predicate NoConjunctions(f: Formula) {
    |f| == 0 || forall k :: 0 <= k < |f| ==> |f[k]| == 0
  }

  /**
   * The private constructor: the `ranges` initializer runs the normalizer, so its failure is the
   * constructor's failure.
   */
  function Build(predicates: Formula, preferred: Option<V.Version>): (r: Result<VersionConstraint>)
    ensures r.Err? <==> Normalize(predicates).Err?
    ensures r.Ok? ==> r.value.predicates == predicates && r.value.preferred == preferred
  {
    var ranges :- Normalize(predicates);
    Ok(VersionConstraint(predicates, preferred, ranges))
  }

  /**
   * `parse`: the format's failure propagates; no conjunctions, or only empty ones, is a format
   * error; otherwise the constraint is built from what the format produced.
   */
  function Parse(parsed: Result<Parsed>): (r: Result<VersionConstraint>)
    ensures parsed.Err? ==> r == Err(parsed.error)
    ensures parsed.Ok? && NoConjunctions(parsed.value.0) ==> r == Err(ConstraintFormat)
    ensures r.Ok? ==> (parsed.Ok? && !NoConjunctions(parsed.value.0)
      && r.value.predicates == parsed.value.0 && r.value.preferred == parsed.value.1)
  {
    var p :- parsed;
    if NoConjunctions(p.0) then Err(ConstraintFormat) else Build(p.0, p.1)
  }

  /** `tryParse`: a format error becomes null; any other failure still propagates. */
  function TryParse(parsed: Result<Parsed>): (r: Result<Option<VersionConstraint>>)
  {
    match Parse(parsed)
    case Ok(c) => Ok(Some(c))
    case Err(e) => if e == ConstraintFormat then Ok(None) else Err(e)
  }

  /** `tryParse` answers null exactly when `parse` raises a format error, and agrees with it otherwise. */
  lemma {:induction false} TryParseMeaning(parsed: Result<Parsed>)
    ensures TryParse(parsed) == Ok(None) <==> Parse(parsed) == Err(ConstraintFormat)
    ensures forall c :: TryParse(parsed) == Ok(Some(c)) <==> Parse(parsed) == Ok(c)
    ensures TryParse(parsed).Err? <==> Parse(parsed).Err? && Parse(parsed).error != ConstraintFormat
  {
  }

  /** A parsed constraint's ranges hold exactly the versions that satisfy its predicates. */
  lemma {:induction false} ParseMeaning(parsed: Result<Parsed>, v: V.Version)
    requires parsed.Ok? && FormulaWellFormed(parsed.value.0) && V.WellFormed(v)
    requires Parse(parsed).Ok?
    ensures |Parse(parsed).value.ranges| >= 1 && RangesWellFormed(Parse(parsed).value.ranges)
    ensures InRanges(Parse(parsed).value.ranges, v) <==> Satisfies(parsed.value.0, v)
  {
    NormalizeMeaning(parsed.value.0, v);
  }

  // ---------------------------------------------------------------------------------------
  // Equality and hashing

  /** List equality of ranges: same length and pairwise equal. */
  predicate RangeListEquals(a: seq<VersionRange>, b: seq<VersionRange>) {
    |a| == |b| && forall i :: 0 <= i < |a| ==> RangeEquals(a[i], b[i])
  }

  /** `equals`: equal range lists and equal preferred versions; the predicates' text and order do not enter. */
  predicate Equals(a: VersionConstraint, b: VersionConstraint) {
    RangeListEquals(a.ranges, b.ranges) && V.OptEquals(a.preferred, b.preferred)
  }

  /** `List.hashCode` over the elements' hashes: starting from 1, each folded in as `31 * h + hash`. */
  function ListHash(hs: seq<int>): int {
    if |hs| == 0 then 1 else Wrap32(31 * ListHash(hs[..|hs| - 1]) + hs[|hs| - 1])
  }

  /** The hash of a list of ranges. */
  function RangeListHash(rs: seq<VersionRange>): int {
    ListHash(seq(|rs|, i requires 0 <= i < |rs| => RangeHash(rs[i])))
  }

  /** `hashCode`: the ranges' hash, multiplied by 31 + the preferred version's hash. */
  function Hash(c: VersionConstraint): int {
    Wrap32(RangeListHash(c.ranges) * Wrap32(31 + V.OptHash(c.preferred)))
  }

  predicate ConstraintWellFormed(c: VersionConstraint) {
    RangesWellFormed(c.ranges) && V.OptWellFormed(c.preferred)
  }

  lemma {:induction false} EqualRangeListsHashAlike(a: seq<VersionRange>, b: seq<VersionRange>)
    requires RangesWellFormed(a) && RangesWellFormed(b) && RangeListEquals(a, b)
    ensures RangeListHash(a) == RangeListHash(b)
  {
    var ha := seq(|a|, i requires 0 <= i < |a| => RangeHash(a[i]));
    var hb := seq(|b|, i requires 0 <= i < |b| => RangeHash(b[i]));
    forall i | 0 <= i < |a|
      ensures ha[i] == hb[i]
    {
      assert a[i] in a && b[i] in b;
      RangeEqualsIsEquivalence(a[i], b[i], b[i]);
    }
    assert ha == hb;
  }

  /** Equality of well-formed range lists is an equivalence. */
  lemma {:induction false} RangeListEqualsIsEquivalence(a: seq<VersionRange>, b: seq<VersionRange>, c: seq<VersionRange>)
    requires RangesWellFormed(a) && RangesWellFormed(b) && RangesWellFormed(c)
    ensures RangeListEquals(a, a)
    ensures RangeListEquals(a, b) ==> RangeListEquals(b, a)
    ensures RangeListEquals(a, b) && RangeListEquals(b, c) ==> RangeListEquals(a, c)
  {
    forall i | 0 <= i < |a|
      ensures RangeEquals(a[i], a[i])
      ensures i < |b| ==> (RangeEquals(a[i], b[i]) ==> RangeEquals(b[i], a[i]))
      ensures i < |b| && i < |c| ==> (RangeEquals(a[i], b[i]) && RangeEquals(b[i], c[i]) ==> RangeEquals(a[i], c[i]))
    {
      assert a[i] in a;
      if i < |b| && i < |c| {
        assert b[i] in b && c[i] in c;
        RangeEqualsIsEquivalence(a[i], b[i], c[i]);
      } else if i < |b| {
        assert b[i] in b;
        RangeEqualsIsEquivalence(a[i], b[i], b[i]);
      } else {
        RangeEqualsIsEquivalence(a[i], a[i], a[i]);
      }
    }
  }

  /** Constraint equality is an equivalence on well-formed constraints, and equal constraints hash alike. */
  lemma {:induction false} EqualsIsEquivalence(a: VersionConstraint, b: VersionConstraint, c: VersionConstraint)
    requires ConstraintWellFormed(a) && ConstraintWellFormed(b) && ConstraintWellFormed(c)
    ensures Equals(a, a)
    ensures Equals(a, b) ==> Equals(b, a) && Hash(a) == Hash(b)
    ensures Equals(a, b) && Equals(b, c) ==> Equals(a, c)
  {
    V.OptEqualsIsEquivalence(a.preferred, b.preferred, c.preferred);
    RangeListEqualsIsEquivalence(a.ranges, b.ranges, c.ranges);
    if Equals(a, b) {
      EqualRangeListsHashAlike(a.ranges, b.ranges);
    }
  }

  // ---------------------------------------------------------------------------------------
  // Satisfaction

  /**
   * The pre-release rule: a release always passes, as does everything when pre-releases are
   * included; otherwise a pre-release passes only when a bound of the range it lies in is a
   * pre-release of the same major.minor.patch.
   */
  predicate Admits(r: VersionRange, v: V.Version, includePreRelease: bool) {
    !V.IsPreRelease(v) || includePreRelease
    || (r.start.Some? && V.IsPreRelease(r.start.value)
        && V.Equals(V.WithoutSuffixes(r.start.value), V.WithoutSuffixes(v)))
    || (r.end.Some? && V.IsPreRelease(r.end.value)
        && V.Equals(V.WithoutSuffixes(r.end.value), V.WithoutSuffixes(v)))
  }

  /** Satisfaction as the documentation states it: some range holds the version and admits it. */
  predicate Satisfied(rs: seq<VersionRange>, v: V.Version, includePreRelease: bool) {
    exists i :: 0 <= i < |rs| && Contains(rs[i], v) && Admits(rs[i], v, includePreRelease)
  }

  /**
   * The binary search between `low` and `high`: a hit answers by the pre-release rule; a miss
   * moves left only when the middle range has a start above the version.
   */
  function Search(rs: seq<VersionRange>, v: V.Version, includePreRelease: bool, low: int, high: int): bool
    requires 0 <= low && high < |rs|
    decreases high - low + 1
  {
    if low > high then false
    else
      var mid := (low + high) / 2;
      if Contains(rs[mid], v) then Admits(rs[mid], v, includePreRelease)
      else if rs[mid].start.Some? && V.Compare(v, rs[mid].start.value) < 0 then Search(rs, v, includePreRelease, low, mid - 1)
      else Search(rs, v, includePreRelease, mid + 1, high)
  }

  /** The search over the whole list. */
  function Found(rs: seq<VersionRange>, v: V.Version, includePreRelease: bool): bool {
    Search(rs, v, includePreRelease, 0, |rs| - 1)
  }

  /** Whatever the list, a hit is a range between `low` and `high` that holds and admits the version. */
  lemma {:induction false} SearchSound(rs: seq<VersionRange>, v: V.Version, includePreRelease: bool, low: int, high: int)
    requires 0 <= low && high < |rs|
    requires Search(rs, v, includePreRelease, low, high)
    ensures exists i :: low <= i <= high && Contains(rs[i], v) && Admits(rs[i], v, includePreRelease)
    decreases high - low + 1
  {
    var mid := (low + high) / 2;
    if Contains(rs[mid], v) {
    } else if rs[mid].start.Some? && V.Compare(v, rs[mid].start.value) < 0 {
      SearchSound(rs, v, includePreRelease, low, mid - 1);
    } else {
      SearchSound(rs, v, includePreRelease, mid + 1, high);
    }
  }

  /** In a canonical list, no two ranges hold the same version. */
  lemma {:induction false} CanonicalContainsOnce(rs: seq<VersionRange>, i: int, j: int, v: V.Version)
    requires RangesWellFormed(rs) && Canonical(rs) && V.WellFormed(v)
    requires 0 <= i < j < |rs|
    ensures !(Contains(rs[i], v) && Contains(rs[j], v))
  {
    assert rs[i] in rs && rs[j] in rs;
    if Contains(rs[i], v) && Contains(rs[j], v) {
      V.CompareIsTotalPreorder(rs[j].start.value, v, rs[i].end.value);
      V.CompareAntisymmetric(rs[i].end.value, rs[j].start.value);
    }
  }

  /** A range to the right of another in a canonical list starts above the other's start. */
  lemma {:induction false} CanonicalStartsRise(rs: seq<VersionRange>, i: int, j: int)
    requires RangesWellFormed(rs) && Canonical(rs)
    requires 0 <= i < j < |rs| && rs[i].start.Some?
    ensures V.Compare(rs[i].start.value, rs[j].start.value) < 0
  {
    assert rs[i] in rs && rs[j] in rs;
    V.CompareIsTotalPreorder(rs[i].start.value, rs[i].end.value, rs[j].start.value);
  }

  /**
   * Range `i` is the only one holding the version, and every other range sends the search
   * towards it: left exactly when `i` lies to its left.
   */
  predicate Guides(rs: seq<VersionRange>, v: V.Version, i: int)
    requires 0 <= i < |rs|
  {
    Contains(rs[i], v)
    && forall m :: 0 <= m < |rs| && m != i ==>
         !Contains(rs[m], v) && ((rs[m].start.Some? && V.Compare(v, rs[m].start.value) < 0) <==> i < m)
  }

  /** When range `i` between `low` and `high` guides the search, the search answers by its pre-release rule. */
  lemma {:induction false} SearchComplete(rs: seq<VersionRange>, v: V.Version, includePreRelease: bool, low: int, high: int, i: int)
    requires 0 <= low <= i <= high < |rs| && Guides(rs, v, i)
    ensures Search(rs, v, includePreRelease, low, high) == Admits(rs[i], v, includePreRelease)
    decreases high - low + 1
  {
    var mid := (low + high) / 2;
    if mid < i {
      SearchComplete(rs, v, includePreRelease, mid + 1, high, i);
    } else if i < mid {
      SearchComplete(rs, v, includePreRelease, low, mid - 1, i);
    }
  }

  /** In a canonical list, the range holding a version guides the search. */
  lemma {:induction false} CanonicalGuides(rs: seq<VersionRange>, v: V.Version, i: int)
    requires RangesWellFormed(rs) && Canonical(rs) && V.WellFormed(v)
    requires 0 <= i < |rs| && Contains(rs[i], v)
    ensures Guides(rs, v, i)
  {
    forall m | 0 <= m < |rs| && m != i
      ensures !Contains(rs[m], v) && ((rs[m].start.Some? && V.Compare(v, rs[m].start.value) < 0) <==> i < m)
    {
      SearchStep(rs, v, m, i);
    }
  }

  /**
   * In a canonical list, a range other than the one holding the version does not hold it, and
   * sends the search left exactly when the holding range lies to its left.
   */
  lemma {:induction false} SearchStep(rs: seq<VersionRange>, v: V.Version, mid: int, i: int)
    requires RangesWellFormed(rs) && Canonical(rs) && V.WellFormed(v)
    requires 0 <= mid < |rs| && 0 <= i < |rs| && mid != i && Contains(rs[i], v)
    ensures !Contains(rs[mid], v)
    ensures (rs[mid].start.Some? && V.Compare(v, rs[mid].start.value) < 0) <==> i < mid
  {
    assert rs[mid] in rs && rs[i] in rs;
    if mid < i {
      CanonicalContainsOnce(rs, mid, i, v);
      if rs[mid].start.Some? {
        CanonicalStartsRise(rs, mid, i);
        V.CompareIsTotalPreorder(rs[mid].start.value, rs[i].start.value, v);
        V.CompareAntisymmetric(v, rs[mid].start.value);
      }
    } else {
      CanonicalContainsOnce(rs, i, mid, v);
      V.CompareIsTotalPreorder(v, rs[i].end.value, rs[mid].start.value);
    }
  }

  /**
   * The search always implies the documented satisfaction, and on the normalizer's canonical
   * output it is exactly that satisfaction.
   */
  lemma {:induction false} FoundMeaning(rs: seq<VersionRange>, v: V.Version, includePreRelease: bool)
    ensures Found(rs, v, includePreRelease) ==> Satisfied(rs, v, includePreRelease)
    ensures RangesWellFormed(rs) && Canonical(rs) && V.WellFormed(v) ==>
      (Found(rs, v, includePreRelease) <==> Satisfied(rs, v, includePreRelease))
  {
    if Found(rs, v, includePreRelease) {
      SearchSound(rs, v, includePreRelease, 0, |rs| - 1);
    }
    if RangesWellFormed(rs) && Canonical(rs) && V.WellFormed(v) && Satisfied(rs, v, includePreRelease) {
      var i :| 0 <= i < |rs| && Contains(rs[i], v) && Admits(rs[i], v, includePreRelease);
      CanonicalGuides(rs, v, i);
      SearchComplete(rs, v, includePreRelease, 0, |rs| - 1, i);
    }
  }

  /** For a release, or with pre-releases included, satisfaction is plain containment. */
  lemma {:induction false} ReleaseSatisfiedIffContained(rs: seq<VersionRange>, v: V.Version, includePreRelease: bool)
    requires !V.IsPreRelease(v) || includePreRelease
    ensures Satisfied(rs, v, includePreRelease) <==> InRanges(rs, v)
  {
    if InRanges(rs, v) {
      var i :| 0 <= i < |rs| && Contains(rs[i], v);
      assert Admits(rs[i], v, includePreRelease);
    }
  }

  /** Two versions with the same normal version are equal once their suffixes are dropped. */
  lemma {:induction false} NormalVersionsEqual(a: V.Version, b: V.Version)
    ensures V.Equals(V.WithoutSuffixes(a), V.WithoutSuffixes(b))
      <==> a.major == b.major && a.minor == b.minor && a.patch == b.patch
  {
  }

  /**
   * A constraint parsed from well-formed predicates whose collected ranges are none inverted
   * accepts a release exactly when the release satisfies the predicates.
   */
  lemma {:induction false} ConstraintMeaning(parsed: Result<Parsed>, v: V.Version, includePreRelease: bool)
    requires parsed.Ok? && FormulaWellFormed(parsed.value.0) && V.WellFormed(v)
    requires forall r :: r in Candidates(parsed.value.0) ==> NotInverted(r)
    requires Parse(parsed).Ok?
    requires !V.IsPreRelease(v) || includePreRelease
    ensures Found(Parse(parsed).value.ranges, v, includePreRelease) <==> Satisfies(parsed.value.0, v)
  {
    var rs := Parse(parsed).value.ranges;
    ParseMeaning(parsed, v);
    NormalizeCanonical(parsed.value.0);
    FoundMeaning(rs, v, includePreRelease);
    ReleaseSatisfiedIffContained(rs, v, includePreRelease);
  }

  /** `isSatisfiedBy(version, includePreRelease)`: the binary search, loop by loop. */
  method IsSatisfiedBy(c: VersionConstraint, v: V.Version, includePreRelease: bool) returns (b: bool)
    ensures b == Found(c.ranges, v, includePreRelease)
  {
    var rs := c.ranges;
    var low := 0;
    var high := |rs| - 1;
    while low <= high
      invariant 0 <= low && high < |rs|
      invariant Search(rs, v, includePreRelease, low, high) == Found(rs, v, includePreRelease)
      decreases high - low + 1
    {
      var mid := (low + high) / 2;
      var midRange := rs[mid];
      if Contains(midRange, v) {
        return Admits(midRange, v, includePreRelease);
      } else if midRange.start.Some? && V.Compare(v, midRange.start.value) < 0 {
        high := mid - 1;
      } else {
        low := mid + 1;
      }
    }
    return false;
  }

  /** `isSatisfiedBy(version)`: pre-releases are not included. */
  method IsSatisfiedByVersion(c: VersionConstraint, v: V.Version) returns (b: bool)
    ensures b == Found(c.ranges, v, false)
    ensures !V.IsPreRelease(v) && RangesWellFormed(c.ranges) && Canonical(c.ranges) && V.WellFormed(v) ==>
      (b <==> InRanges(c.ranges, v))
  {
    FoundMeaning(c.ranges, v, false);
    if !V.IsPreRelease(v) {
      ReleaseSatisfiedIffContained(c.ranges, v, false);
    }
    b := IsSatisfiedBy(c, v, false);
  }

  /** `isSatisfiedByAll`: every version satisfies the constraint (true for none). */
  method IsSatisfiedByAll(c: VersionConstraint, versions: seq<V.Version>) returns (b: bool)
    ensures b <==> forall k :: 0 <= k < |versions| ==> Found(c.ranges, versions[k], false)
  {
    for k := 0 to |versions|
      invariant forall j :: 0 <= j < k ==> Found(c.ranges, versions[j], false)
    {
      var ok := IsSatisfiedByVersion(c, versions[k]);
      if !ok {
        return false;
      }
    }
    return true;
  }

  /** `isSatisfiedByAny`: some version satisfies the constraint (false for none). */
  method IsSatisfiedByAny(c: VersionConstraint, versions: seq<V.Version>) returns (b: bool)
    ensures b <==> exists k :: 0 <= k < |versions| && Found(c.ranges, versions[k], false)
  {
    for k := 0 to |versions|
      invariant forall j :: 0 <= j < k ==> !Found(c.ranges, versions[j], false)
    {
      var ok := IsSatisfiedByVersion(c, versions[k]);
      if ok {
        return true;
      }
    }
    return false;
  }

  /** Equal well-formed constraints accept the same versions. */
  lemma {:induction false} EqualConstraintsAgree(a: VersionConstraint, b: VersionConstraint, v: V.Version, includePreRelease: bool)
    requires ConstraintWellFormed(a) && ConstraintWellFormed(b) && Equals(a, b) && V.WellFormed(v)
    ensures Found(a.ranges, v, includePreRelease) == Found(b.ranges, v, includePreRelease)
  {
    EqualSearch(a.ranges, b.ranges, v, includePreRelease, 0, |a.ranges| - 1);
  }

  lemma {:induction false} EqualSearch(a: seq<VersionRange>, b: seq<VersionRange>, v: V.Version, includePreRelease: bool, low: int, high: int)
    requires RangesWellFormed(a) && RangesWellFormed(b) && RangeListEquals(a, b) && V.WellFormed(v)
    requires 0 <= low && high < |a|
    ensures Search(a, v, includePreRelease, low, high) == Search(b, v, includePreRelease, low, high)
    decreases high - low + 1
  {
    if low <= high {
      var mid := (low + high) / 2;
      assert a[mid] in a && b[mid] in b;
      EqualRangesSearchAlike(a[mid], b[mid], v, includePreRelease);
      EqualSearch(a, b, v, includePreRelease, low, mid - 1);
      EqualSearch(a, b, v, includePreRelease, mid + 1, high);
    }
  }

  /** Equal ranges look the same to one step of the search. */
  lemma {:induction false} EqualRangesSearchAlike(a: VersionRange, b: VersionRange, v: V.Version, includePreRelease: bool)
    requires WellFormed(a) && WellFormed(b) && RangeEquals(a, b) && V.WellFormed(v)
    ensures Contains(a, v) == Contains(b, v)
    ensures Admits(a, v, includePreRelease) == Admits(b, v, includePreRelease)
    ensures (a.start.Some? && V.Compare(v, a.start.value) < 0) == (b.start.Some? && V.Compare(v, b.start.value) < 0)
  {
    EqualRangesContainAlike(a, b, v);
    EqualRangesAdmitAlike(a, b, v, includePreRelease);
    if a.start.Some? {
      V.CompareSubstitute(a.start.value, b.start.value, v);
      V.CompareAntisymmetric(v, a.start.value);
      V.CompareAntisymmetric(v, b.start.value);
    }
  }

  lemma {:induction false} EqualRangesAdmitAlike(a: VersionRange, b: VersionRange, v: V.Version, includePreRelease: bool)
    requires WellFormed(a) && WellFormed(b) && RangeEquals(a, b)
    ensures Admits(a, v, includePreRelease) == Admits(b, v, includePreRelease)
  {
  }
}
