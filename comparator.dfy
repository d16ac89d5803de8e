/**
 * Comparators, the atoms a version predicate is made of, and the `[start, end)` range
 * predicate built from at most two of them.
 */
module Comparators {
  import opened Wrappers
  import opened Strings
  import V = Versions

  /** The four comparison operators. */
  datatype Op = LT | GTE | EQ | NEQ

  /** A test of a version against a reference version. */
  datatype Comparator = Comparator(op: Op, reference: V.Version)

  /** What a comparator asks of a version, in the version order. */
  predicate Holds(c: Comparator, v: V.Version) {
    match c.op
    case LT => V.Compare(v, c.reference) < 0
    case GTE => V.Compare(v, c.reference) >= 0
    case EQ => V.Compare(v, c.reference) == 0
    case NEQ => V.Compare(v, c.reference) != 0
  }

  /** A conjunction of comparators. */
  predicate AllHold(cs: seq<Comparator>, v: V.Version) {
    forall i :: 0 <= i < |cs| ==> Holds(cs[i], v)
  }

  /** `equals`: the same operator and equal references. */
  function Equals(c: Comparator, d: Comparator): bool {
    c.op == d.op && V.Equals(c.reference, d.reference)
  }

  /**
   * `hashCode`: the operator's hash multiplied by 31 + the reference's hash. An enum constant's
   * hash is the runtime's identity hash, so it is a parameter here.
   */
  function Hash(c: Comparator, opHash: Op -> int): int {
    Wrap32(opHash(c.op) * Wrap32(31 + V.Hash(c.reference)))
  }

  /** Comparator equality is an equivalence; equal comparators hash alike and accept the same versions. */
  lemma {:induction false} EqualsIsEquivalence(c: Comparator, d: Comparator, e: Comparator, opHash: Op -> int, v: V.Version)
    requires V.WellFormed(c.reference) && V.WellFormed(d.reference) && V.WellFormed(e.reference)
    requires V.WellFormed(v)
    ensures Equals(c, c)
    ensures Equals(c, d) ==> Equals(d, c)
    ensures Equals(c, d) && Equals(d, e) ==> Equals(c, e)
    ensures Equals(c, d) ==> Hash(c, opHash) == Hash(d, opHash) && (Holds(c, v) <==> Holds(d, v))
  {
    V.OptEqualsIsEquivalence(Some(c.reference), Some(d.reference), Some(e.reference));
    if Equals(c, d) {
      V.CompareSubstitute(c.reference, d.reference, v);
    }
  }

  /** A predicate `[start, end)`: either bound may be absent. */
  datatype RangePredicate = RangePredicate(start: Option<V.Version>, end: Option<V.Version>)

  /** Construction: both bounds present with start >= end is a format error. */
  function MakeRangePredicate(start: Option<V.Version>, end: Option<V.Version>): (r: Result<RangePredicate>)
    ensures r.Ok? <==> !(start.Some? && end.Some? && V.Compare(start.value, end.value) >= 0)
    ensures r.Ok? ==> r.value == RangePredicate(start, end)
    ensures r.Err? ==> r.error == ConstraintFormat
  {
    if start.Some? && end.Some? && V.Compare(start.value, end.value) >= 0 then Err(ConstraintFormat)
    else Ok(RangePredicate(start, end))
  }

  /** The range predicate of a start and an end, each computed in that order, each of which may fail. */
  function RangeOf(start: Result<Option<V.Version>>, end: Result<Option<V.Version>>): Result<RangePredicate> {
    var s :- start;
    var e :- end;
    MakeRangePredicate(s, e)
  }

  /** `comparators`: GTE start if there is a start, then LT end if there is an end. */
  function Comparators(p: RangePredicate): (cs: seq<Comparator>)
    ensures |cs| <= 2
  {
    (if p.start.Some? then [Comparator(GTE, p.start.value)] else [])
    + (if p.end.Some? then [Comparator(LT, p.end.value)] else [])
  }

  /** The versions a range predicate's comparators accept are those in `[start, end)`. */
  lemma {:induction false} ComparatorsMeanRange(p: RangePredicate, v: V.Version)
    requires V.WellFormed(v) && V.OptWellFormed(p.start)
    ensures AllHold(Comparators(p), v)
      <==> (p.start.None? || V.Compare(p.start.value, v) <= 0) && (p.end.None? || V.Compare(v, p.end.value) < 0)
  {
    var cs := Comparators(p);
    if p.start.Some? {
      assert cs[0] == Comparator(GTE, p.start.value);
      V.CompareAntisymmetric(v, p.start.value);
    }
    if p.end.Some? {
      assert cs[|cs| - 1] == Comparator(LT, p.end.value);
    }
  }

  /**
   * A range predicate with both bounds is accepted exactly when its start satisfies it, so an
   * accepted one is never empty.
   */
  lemma {:induction false} MakeRangePredicateNonEmpty(start: V.Version, end: V.Version)
    requires V.WellFormed(start)
    ensures MakeRangePredicate(Some(start), Some(end)).Ok?
      <==> AllHold(Comparators(RangePredicate(Some(start), Some(end))), start)
  {
    V.CompareIsTotalPreorder(start, start, start);
    ComparatorsMeanRange(RangePredicate(Some(start), Some(end)), start);
  }

  /** `equals`: both bounds equal, null matching only null. */
  function PredicateEquals(a: RangePredicate, b: RangePredicate): bool {
    V.OptEquals(a.start, b.start) && V.OptEquals(a.end, b.end)
  }

  /** `hashCode`: the start's hash multiplied by 31 + the end's hash; null hashes to 0. */
  function PredicateHash(p: RangePredicate): int {
    Wrap32(V.OptHash(p.start) * Wrap32(31 + V.OptHash(p.end)))
  }

  /** Equal range predicates hash alike and accept the same versions. */
  lemma {:induction false} EqualPredicatesAgree(a: RangePredicate, b: RangePredicate, v: V.Version)
    requires V.OptWellFormed(a.start) && V.OptWellFormed(a.end)
    requires V.OptWellFormed(b.start) && V.OptWellFormed(b.end)
    requires V.WellFormed(v)
    requires PredicateEquals(a, b)
    ensures PredicateHash(a) == PredicateHash(b)
    ensures AllHold(Comparators(a), v) <==> AllHold(Comparators(b), v)
  {
    V.OptEqualsIsEquivalence(a.start, b.start, b.start);
    V.OptEqualsIsEquivalence(a.end, b.end, b.end);
    ComparatorsMeanRange(a, v);
    ComparatorsMeanRange(b, v);
    if a.start.Some? {
      V.CompareSubstitute(a.start.value, b.start.value, v);
    }
    if a.end.Some? {
      V.CompareSubstitute(a.end.value, b.end.value, v);
    }
  }
}
