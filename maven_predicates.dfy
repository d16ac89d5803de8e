/**
 * The three Maven predicates: an exact version "[1.0]", an interval "(1.0,2.0]" with optional
 * bounds, and a soft minimum "1.0". Each is a `[start, end)` range predicate.
 */
module MavenPredicates {
  import opened Wrappers
  import V = Versions
  import C = Comparators
  import D = MavenDescriptors

  datatype MavenPredicate =
    | ExactVersionMatch(descriptor: D.Descriptor)
    | IntervalVersionRange(lowerBound: Option<D.Descriptor>, lowerBoundInclusive: bool, upperBound: Option<D.Descriptor>, upperBoundInclusive: bool)
    | MinimumVersion(descriptor: D.Descriptor)

  /**
   * The range each predicate stands for: an exact match from its version up to the least
   * version above it; an interval from its lower bound (or the least version above it when
   * exclusive) up to its upper bound (or the least version above it when inclusive); a minimum
   * from its version, without end.
   */
  function Range(p: MavenPredicate): Result<C.RangePredicate> {
    match p
    case ExactVersionMatch(d) => C.RangeOf(D.OptToVersion(Some(d), false), D.OptToVersion(Some(d), true))
    case IntervalVersionRange(l, li, u, ui) => C.RangeOf(D.OptToVersion(l, !li), D.OptToVersion(u, ui))
    case MinimumVersion(d) => C.RangeOf(D.OptToVersion(Some(d), false), Ok(None))
  }

  /** Construction: the range predicate's own computation and checks, which may raise. */
  function Construct(p: MavenPredicate): (r: Result<MavenPredicate>)
    ensures r.Ok? <==> Range(p).Ok?
    ensures r.Ok? ==> r.value == p
    ensures r.Err? ==> r.error == Range(p).error
  {
    var _ :- Range(p);
    Ok(p)
  }

  /** The interval factory: a missing bound cannot be inclusive. */
  function Interval(lower: Option<D.Descriptor>, lowerInclusive: bool, upper: Option<D.Descriptor>, upperInclusive: bool): (r: Result<MavenPredicate>)
    ensures (lower.None? && lowerInclusive) || (upper.None? && upperInclusive) ==> r == Err(ConstraintFormat)
    ensures r.Ok? ==> r.value == IntervalVersionRange(lower, lowerInclusive, upper, upperInclusive)
  {
    if lower.None? && lowerInclusive then Err(ConstraintFormat)
    else if upper.None? && upperInclusive then Err(ConstraintFormat)
    else Construct(IntervalVersionRange(lower, lowerInclusive, upper, upperInclusive))
  }

  /** `comparators`: those of the range. */
  function Comparators(p: MavenPredicate): Result<seq<C.Comparator>> {
    var r :- Range(p);
    Ok(C.Comparators(r))
  }

  /** `toString`: "[d]", the interval with its brackets and comma, or the bare descriptor. */
  function ToString(p: MavenPredicate): string {
    match p
    case ExactVersionMatch(d) => "[" + D.ToString(d) + "]"
    case IntervalVersionRange(l, li, u, ui) =>
      (if li then "[" else "(") + (if l.Some? then D.ToString(l.value) else "") + ","
      + (if u.Some? then D.ToString(u.value) else "") + (if ui then "]" else ")")
    case MinimumVersion(d) => D.ToString(d)
  }

  /** Whether the numbers of an optional bound fit an `Int`. */
  predicate OptFits(d: Option<D.Descriptor>) {
    d.Some? ==> D.Fits(d.value)
  }

  /** A version lies at or above a lower bound, or strictly above it when the bound is exclusive. */
  predicate AboveLower(lower: Option<D.Descriptor>, inclusive: bool, v: V.Version)
    requires OptFits(lower)
  {
    lower.None? || (if inclusive then V.Compare(D.VersionOf(lower.value), v) <= 0 else V.Compare(D.VersionOf(lower.value), v) < 0)
  }

  /** A version lies at or below an upper bound, or strictly below it when the bound is exclusive. */
  predicate BelowUpper(upper: Option<D.Descriptor>, inclusive: bool, v: V.Version)
    requires OptFits(upper)
  {
    upper.None? || (if inclusive then V.Compare(v, D.VersionOf(upper.value)) <= 0 else V.Compare(v, D.VersionOf(upper.value)) < 0)
  }

  /** The start of an interval is the lower bound itself, or the least version above it. */
  lemma {:induction false} StartMeaning(lower: Option<D.Descriptor>, inclusive: bool, v: V.Version)
    requires OptFits(lower) && V.WellFormed(v)
    ensures D.OptToVersion(lower, !inclusive).Ok?
    ensures var s := D.OptToVersion(lower, !inclusive).value;
      V.OptWellFormed(s) && ((s.None? || V.Compare(s.value, v) <= 0) <==> AboveLower(lower, inclusive, v))
  {
    if lower.Some? {
      var l := D.VersionOf(lower.value);
      D.ToVersionMeaning(lower.value);
      V.SmallestLargerIsSuccessor(l, v);
      V.CompareAntisymmetric(v, l);
      V.CompareAntisymmetric(v, V.SmallestLarger(l));
    }
  }

  /** The end of an interval is the upper bound itself, or the least version above it. */
  lemma {:induction false} EndMeaning(upper: Option<D.Descriptor>, inclusive: bool, v: V.Version)
    requires OptFits(upper) && V.WellFormed(v)
    ensures D.OptToVersion(upper, inclusive).Ok?
    ensures var e := D.OptToVersion(upper, inclusive).value;
      V.OptWellFormed(e) && ((e.None? || V.Compare(v, e.value) < 0) <==> BelowUpper(upper, inclusive, v))
  {
    if upper.Some? {
      var u := D.VersionOf(upper.value);
      D.ToVersionMeaning(upper.value);
      V.SmallestLargerIsSuccessor(u, v);
    }
  }

  /**
   * An interval whose bounds fit accepts exactly the versions between its bounds, each bound
   * included or excluded as marked; it is rejected only when its start is not below its end.
   */
  lemma {:induction false} IntervalMeaning(lower: Option<D.Descriptor>, lowerInclusive: bool, upper: Option<D.Descriptor>, upperInclusive: bool, v: V.Version)
    requires OptFits(lower) && OptFits(upper) && V.WellFormed(v)
    requires Range(IntervalVersionRange(lower, lowerInclusive, upper, upperInclusive)).Ok?
    ensures C.AllHold(C.Comparators(Range(IntervalVersionRange(lower, lowerInclusive, upper, upperInclusive)).value), v)
      <==> AboveLower(lower, lowerInclusive, v) && BelowUpper(upper, upperInclusive, v)
  {
    StartMeaning(lower, lowerInclusive, v);
    EndMeaning(upper, upperInclusive, v);
    C.ComparatorsMeanRange(Range(IntervalVersionRange(lower, lowerInclusive, upper, upperInclusive)).value, v);
  }

  /** An exact match whose numbers fit accepts exactly the versions of equal precedence. */
  lemma {:induction false} ExactMeaning(d: D.Descriptor, v: V.Version)
    requires D.Fits(d) && V.WellFormed(v)
    ensures Range(ExactVersionMatch(d)).Ok?
    ensures C.AllHold(C.Comparators(Range(ExactVersionMatch(d)).value), v) <==> V.Compare(v, D.VersionOf(d)) == 0
  {
    var x := D.VersionOf(d);
    D.ToVersionMeaning(d);
    V.SmallestLargerIsSuccessor(x, v);
    V.CompareAntisymmetric(v, x);
    C.ComparatorsMeanRange(Range(ExactVersionMatch(d)).value, v);
  }

  /** "[d]" and "[d,d]" stand for the same range. */
  lemma {:induction false} ExactIsInclusiveSingleton(d: D.Descriptor)
    requires D.Fits(d)
    ensures Range(ExactVersionMatch(d)) == Range(IntervalVersionRange(Some(d), true, Some(d), true))
    ensures Range(ExactVersionMatch(d)).Ok?
  {
    var x := D.VersionOf(d);
    D.ToVersionMeaning(d);
    V.SmallestLargerIsSuccessor(x, x);
  }

  /** A soft minimum whose numbers fit accepts exactly the versions at or above it. */
  lemma {:induction false} MinimumMeaning(d: D.Descriptor, v: V.Version)
    requires D.Fits(d) && V.WellFormed(v)
    ensures Range(MinimumVersion(d)).Ok?
    ensures C.AllHold(C.Comparators(Range(MinimumVersion(d)).value), v) <==> V.Compare(D.VersionOf(d), v) <= 0
  {
    D.ToVersionMeaning(d);
    C.ComparatorsMeanRange(Range(MinimumVersion(d)).value, v);
  }

  /** An interval whose bounds coincide but are not both inclusive, such as "(1.0,1.0]", is rejected as empty. */
  lemma {:induction false} DegenerateIntervalRejected(d: D.Descriptor, lowerInclusive: bool, upperInclusive: bool)
    requires D.Fits(d) && !(lowerInclusive && upperInclusive)
    ensures Interval(Some(d), lowerInclusive, Some(d), upperInclusive) == Err(ConstraintFormat)
  {
    var x := D.VersionOf(d);
    D.ToVersionMeaning(d);
    V.SmallestLargerIsSuccessor(x, x);
    V.CompareIsTotalPreorder(x, x, x);
    V.CompareIsTotalPreorder(V.SmallestLarger(x), V.SmallestLarger(x), V.SmallestLarger(x));
    V.CompareAntisymmetric(x, V.SmallestLarger(x));
  }
}
