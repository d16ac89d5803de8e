/**
 * The first phase of the range normalizer: one conjunction of predicates becomes a set of
 * ranges. The conjunction is dropped on an EQ/NEQ clash or when its bounds cross; otherwise its
 * bounds give one candidate range, which is split around every NEQ reference.
 */
module Conjunctions {
  import opened Wrappers
  import V = Versions
  import opened Comparators
  import opened VersionRanges

  /** `flatMap(VersionPredicate::comparators)`: the comparators of the predicates, in order. */
  function Flatten(conj: seq<seq<Comparator>>): seq<Comparator> {
    if |conj| == 0 then [] else conj[0] + Flatten(conj[1..])
  }

  /** Every predicate of the conjunction holds. */
  predicate SatisfiesAll(conj: seq<seq<Comparator>>, v: V.Version) {
    forall p :: 0 <= p < |conj| ==> AllHold(conj[p], v)
  }

  predicate RefsWellFormed(cs: seq<Comparator>) {
    forall i :: 0 <= i < |cs| ==> V.WellFormed(cs[i].reference)
  }

  predicate ConjWellFormed(conj: seq<seq<Comparator>>) {
    forall p :: 0 <= p < |conj| ==> RefsWellFormed(conj[p])
  }

  lemma {:induction false} AllHoldAppend(a: seq<Comparator>, b: seq<Comparator>, v: V.Version)
    ensures AllHold(a + b, v) <==> AllHold(a, v) && AllHold(b, v)
  {
    if AllHold(a, v) && AllHold(b, v) {
      forall i | 0 <= i < |a + b|
        ensures Holds((a + b)[i], v)
      {
        if i >= |a| {
          assert (a + b)[i] == b[i - |a|];
        }
      }
    }
    if AllHold(a + b, v) {
      forall i | 0 <= i < |a|
        ensures Holds(a[i], v)
      {
        assert (a + b)[i] == a[i];
      }
      forall i | 0 <= i < |b|
        ensures Holds(b[i], v)
      {
        assert (a + b)[|a| + i] == b[i];
      }
    }
  }

  /** The flattened comparators all hold exactly when every predicate holds. */
  lemma {:induction false} FlattenMeaning(conj: seq<seq<Comparator>>, v: V.Version)
    ensures AllHold(Flatten(conj), v) <==> SatisfiesAll(conj, v)
    ensures ConjWellFormed(conj) ==> RefsWellFormed(Flatten(conj))
  {
    if |conj| > 0 {
      FlattenMeaning(conj[1..], v);
      AllHoldAppend(conj[0], Flatten(conj[1..]), v);
      assert SatisfiesAll(conj, v) <==> AllHold(conj[0], v) && SatisfiesAll(conj[1..], v) by {
        if AllHold(conj[0], v) && SatisfiesAll(conj[1..], v) {
          forall p | 0 <= p < |conj|
            ensures AllHold(conj[p], v)
          {
            if p > 0 {
              assert conj[p] == conj[1..][p - 1];
            }
          }
        }
      }
      if ConjWellFormed(conj) {
        assert ConjWellFormed(conj[1..]) by {
          forall p | 0 <= p < |conj[1..]|
            ensures RefsWellFormed(conj[1..][p])
          {
            assert conj[1..][p] == conj[p + 1];
          }
        }
        var f := Flatten(conj);
        assert f == conj[0] + Flatten(conj[1..]);
        forall i | 0 <= i < |f|
          ensures V.WellFormed(f[i].reference)
        {
          if i >= |conj[0]| {
            assert f[i] == Flatten(conj[1..])[i - |conj[0]|];
          }
        }
      }
    }
  }

  // ---------------------------------------------------------------------------------------
  // Lower and upper bounds

  /** The references of the comparators whose operator is in `ops`, in order. */
  function RefsWith(cs: seq<Comparator>, ops: set<Op>): seq<V.Version> {
    if |cs| == 0 then []
    else (if cs[0].op in ops then [cs[0].reference] else []) + RefsWith(cs[1..], ops)
  }

  /** The references kept are exactly those of the comparators with an operator in `ops`. */
  lemma {:induction false} RefsWithMembers(cs: seq<Comparator>, ops: set<Op>)
    ensures forall i :: 0 <= i < |cs| && cs[i].op in ops ==> cs[i].reference in RefsWith(cs, ops)
    ensures forall x :: x in RefsWith(cs, ops) ==>
      exists i :: 0 <= i < |cs| && cs[i].op in ops && cs[i].reference == x
  {
    if |cs| > 0 {
      var rest := RefsWith(cs[1..], ops);
      RefsWithMembers(cs[1..], ops);
      assert forall i :: 1 <= i < |cs| ==> cs[i] == cs[1..][i - 1];
      forall x | x in RefsWith(cs, ops)
        ensures exists i :: 0 <= i < |cs| && cs[i].op in ops && cs[i].reference == x
      {
        if x in rest {
          var i :| 0 <= i < |cs[1..]| && cs[1..][i].op in ops && cs[1..][i].reference == x;
          assert cs[i + 1] == cs[1..][i];
        } else {
          assert cs[0].op in ops && cs[0].reference == x;
        }
      }
    }
  }

  lemma {:induction false} RefsWithCons(c: Comparator, cs: seq<Comparator>, ops: set<Op>)
    ensures RefsWith([c] + cs, ops) == (if c.op in ops then [c.reference] else []) + RefsWith(cs, ops)
  {
    assert ([c] + cs)[1..] == cs;
  }

  lemma {:induction false} RefsWithNone(cs: seq<Comparator>, ops: set<Op>)
    requires forall c :: c in cs ==> c.op !in ops
    ensures RefsWith(cs, ops) == []
  {
    if |cs| > 0 {
      assert cs[0] in cs;
      assert forall c :: c in cs[1..] ==> c in cs;
      RefsWithNone(cs[1..], ops);
    }
  }

  /** `map { it.reference.toSmallestLargerVersion() }`. */
  function SmallestLargerAll(vs: seq<V.Version>): (r: seq<V.Version>)
    ensures |r| == |vs| && forall k :: 0 <= k < |vs| ==> r[k] == V.SmallestLarger(vs[k])
  {
    seq(|vs|, k requires 0 <= k < |vs| => V.SmallestLarger(vs[k]))
  }

  /** The references a version must be at or above: those of GTE and EQ comparators. */
  function LowerRefs(cs: seq<Comparator>): seq<V.Version> {
    RefsWith(cs, {GTE, EQ})
  }

  /** The references a version must be below: LT references, and the successors of EQ references. */
  function UpperRefs(cs: seq<Comparator>): seq<V.Version> {
    RefsWith(cs, {LT}) + SmallestLargerAll(RefsWith(cs, {EQ}))
  }

  /** `maxOrNull()`: the first of the greatest elements. */
  function MaxOrNull(vs: seq<V.Version>): Option<V.Version> {
    if |vs| == 0 then None else Some(MaxFrom(vs[0], vs[1..]))
  }

  function MaxFrom(m: V.Version, rest: seq<V.Version>): V.Version
    decreases |rest|
  {
    if |rest| == 0 then m
    else MaxFrom(if V.Compare(m, rest[0]) < 0 then rest[0] else m, rest[1..])
  }

  /** `minOrNull()`: the first of the least elements. */
  function MinOrNull(vs: seq<V.Version>): Option<V.Version> {
    if |vs| == 0 then None else Some(MinFrom(vs[0], vs[1..]))
  }

  function MinFrom(m: V.Version, rest: seq<V.Version>): V.Version
    decreases |rest|
  {
    if |rest| == 0 then m
    else MinFrom(if V.Compare(m, rest[0]) > 0 then rest[0] else m, rest[1..])
  }

  predicate AllWellFormedVersions(vs: seq<V.Version>) {
    forall x :: x in vs ==> V.WellFormed(x)
  }

  /** Every element is at most `v`. */
  predicate AllAtMost(vs: seq<V.Version>, v: V.Version) {
    forall x :: x in vs ==> V.Compare(x, v) <= 0
  }

  /** `v` is below every element. */
  predicate AllAbove(vs: seq<V.Version>, v: V.Version) {
    forall y :: y in vs ==> V.Compare(v, y) < 0
  }

  lemma {:induction false} MaxFromIsMax(m: V.Version, rest: seq<V.Version>)
    requires V.WellFormed(m) && AllWellFormedVersions(rest)
    ensures var r := MaxFrom(m, rest);
      V.WellFormed(r) && V.Compare(m, r) <= 0 && forall x :: x in rest ==> V.Compare(x, r) <= 0
    decreases |rest|
  {
    if |rest| > 0 {
      var next := if V.Compare(m, rest[0]) < 0 then rest[0] else m;
      assert forall x :: x in rest[1..] ==> x in rest;
      MaxFromIsMax(next, rest[1..]);
      var r := MaxFrom(m, rest);
      V.CompareIsTotalPreorder(m, next, r);
      V.CompareIsTotalPreorder(rest[0], next, r);
      V.CompareIsTotalPreorder(m, rest[0], rest[0]);
      forall x | x in rest
        ensures V.Compare(x, r) <= 0
      {
        if x != rest[0] {
          assert x in rest[1..];
        }
      }
    } else {
      V.CompareIsTotalPreorder(m, m, m);
    }
  }

  lemma {:induction false} MinFromIsMin(m: V.Version, rest: seq<V.Version>)
    requires V.WellFormed(m) && AllWellFormedVersions(rest)
    ensures var r := MinFrom(m, rest);
      V.WellFormed(r) && V.Compare(r, m) <= 0 && forall y :: y in rest ==> V.Compare(r, y) <= 0
    decreases |rest|
  {
    if |rest| > 0 {
      var next := if V.Compare(m, rest[0]) > 0 then rest[0] else m;
      assert forall y :: y in rest[1..] ==> y in rest;
      MinFromIsMin(next, rest[1..]);
      var r := MinFrom(m, rest);
      V.CompareIsTotalPreorder(r, next, m);
      V.CompareIsTotalPreorder(r, next, rest[0]);
      V.CompareIsTotalPreorder(m, rest[0], rest[0]);
      forall y | y in rest
        ensures V.Compare(r, y) <= 0
      {
        if y != rest[0] {
          assert y in rest[1..];
        }
      }
    } else {
      V.CompareIsTotalPreorder(m, m, m);
    }
  }

  /** A version is at or above the maximum exactly when it is at or above every element. */
  lemma {:induction false} MaxOrNullMeaning(vs: seq<V.Version>, v: V.Version)
    requires AllWellFormedVersions(vs) && V.WellFormed(v)
    ensures MaxOrNull(vs).None? <==> |vs| == 0
    ensures MaxOrNull(vs).Some? ==> MaxOrNull(vs).value in vs && V.WellFormed(MaxOrNull(vs).value)
    ensures MaxOrNull(vs).Some? ==> (V.Compare(MaxOrNull(vs).value, v) <= 0 <==> AllAtMost(vs, v))
  {
    if |vs| > 0 {
      assert forall x :: x in vs[1..] ==> x in vs;
      MaxFromIsMax(vs[0], vs[1..]);
      MaxFromMember(vs[0], vs[1..]);
      var m := MaxOrNull(vs).value;
      if V.Compare(m, v) <= 0 {
        forall x | x in vs
          ensures V.Compare(x, v) <= 0
        {
          V.CompareIsTotalPreorder(x, m, v);
        }
      }
    }
  }

  /** A version is below the minimum exactly when it is below every element. */
  lemma {:induction false} MinOrNullMeaning(vs: seq<V.Version>, v: V.Version)
    requires AllWellFormedVersions(vs) && V.WellFormed(v)
    ensures MinOrNull(vs).None? <==> |vs| == 0
    ensures MinOrNull(vs).Some? ==> MinOrNull(vs).value in vs && V.WellFormed(MinOrNull(vs).value)
    ensures MinOrNull(vs).Some? ==> (V.Compare(v, MinOrNull(vs).value) < 0 <==> AllAbove(vs, v))
  {
    if |vs| > 0 {
      assert forall x :: x in vs[1..] ==> x in vs;
      MinFromIsMin(vs[0], vs[1..]);
      MinFromMember(vs[0], vs[1..]);
      var m := MinOrNull(vs).value;
      if V.Compare(v, m) < 0 {
        forall y | y in vs
          ensures V.Compare(v, y) < 0
        {
          V.CompareIsTotalPreorder(v, m, y);
        }
      }
    }
  }

  lemma {:induction false} MaxFromMember(m: V.Version, rest: seq<V.Version>)
    ensures MaxFrom(m, rest) == m || MaxFrom(m, rest) in rest
    decreases |rest|
  {
    if |rest| > 0 {
      var next := if V.Compare(m, rest[0]) < 0 then rest[0] else m;
      MaxFromMember(next, rest[1..]);
      assert forall x :: x in rest[1..] ==> x in rest;
    }
  }

  lemma {:induction false} MinFromMember(m: V.Version, rest: seq<V.Version>)
    ensures MinFrom(m, rest) == m || MinFrom(m, rest) in rest
    decreases |rest|
  {
    if |rest| > 0 {
      var next := if V.Compare(m, rest[0]) > 0 then rest[0] else m;
      MinFromMember(next, rest[1..]);
      assert forall x :: x in rest[1..] ==> x in rest;
    }
  }

  /** The comparators other than NEQ all hold. */
  predicate BoundsHold(cs: seq<Comparator>, v: V.Version) {
    forall i :: 0 <= i < |cs| && cs[i].op != NEQ ==> Holds(cs[i], v)
  }

  /** The NEQ comparators all hold. */
  predicate NeqsHold(cs: seq<Comparator>, v: V.Version) {
    forall i :: 0 <= i < |cs| && cs[i].op == NEQ ==> Holds(cs[i], v)
  }

  /**
   * The non-NEQ comparators hold exactly when `v` is at or above every lower reference and
   * below every upper one: an EQ reference `e` bounds from below by `e` and from above by the
   * smallest version larger than `e`.
   */
  lemma {:induction false} BoundsMeaning(cs: seq<Comparator>, v: V.Version)
    requires RefsWellFormed(cs) && V.WellFormed(v)
    ensures BoundsHold(cs, v) <==> AllAtMost(LowerRefs(cs), v) && AllAbove(UpperRefs(cs), v)
  {
    var lower := LowerRefs(cs);
    var lts := RefsWith(cs, {LT});
    var eqs := RefsWith(cs, {EQ});
    var sls := SmallestLargerAll(eqs);
    RefsWithMembers(cs, {GTE, EQ});
    RefsWithMembers(cs, {LT});
    RefsWithMembers(cs, {EQ});
    forall i | 0 <= i < |cs|
      ensures cs[i].op != NEQ ==>
        (Holds(cs[i], v) <==> (cs[i].op in {GTE, EQ} ==> V.Compare(cs[i].reference, v) <= 0)
                              && (cs[i].op == LT ==> V.Compare(v, cs[i].reference) < 0)
                              && (cs[i].op == EQ ==> V.Compare(v, V.SmallestLarger(cs[i].reference)) < 0))
    {
      var r := cs[i].reference;
      V.CompareAntisymmetric(v, r);
      V.SmallestLargerIsSuccessor(r, v);
    }
    if BoundsHold(cs, v) {
      forall y | y in UpperRefs(cs)
        ensures V.Compare(v, y) < 0
      {
        if y !in lts {
          var k :| 0 <= k < |sls| && sls[k] == y;
          assert eqs[k] in eqs;
        }
      }
    }
    if AllAtMost(lower, v) && AllAbove(UpperRefs(cs), v) {
      forall i | 0 <= i < |cs| && cs[i].op != NEQ
        ensures Holds(cs[i], v)
      {
        var r := cs[i].reference;
        if cs[i].op == EQ {
          var k :| 0 <= k < |eqs| && eqs[k] == r;
          assert sls[k] in UpperRefs(cs);
        }
      }
    }
  }

  // ---------------------------------------------------------------------------------------
  // The EQ and NEQ comparator sets

  /** The comparators with the given operator, in order. */
  function WithOp(cs: seq<Comparator>, op: Op): seq<Comparator> {
    if |cs| == 0 then []
    else
      var rest := WithOp(cs[..|cs| - 1], op);
      if cs[|cs| - 1].op == op then rest + [cs[|cs| - 1]] else rest
  }

  /** The filter keeps exactly the comparators with the operator. */
  lemma {:induction false} WithOpMembers(cs: seq<Comparator>, op: Op)
    ensures forall k :: 0 <= k < |WithOp(cs, op)| ==> WithOp(cs, op)[k].op == op && WithOp(cs, op)[k] in cs
    ensures forall i :: 0 <= i < |cs| && cs[i].op == op ==> cs[i] in WithOp(cs, op)
  {
    if |cs| > 0 {
      var init := cs[..|cs| - 1];
      WithOpMembers(init, op);
      assert forall i :: 0 <= i < |cs| - 1 ==> init[i] == cs[i];
      assert forall c :: c in init ==> c in cs;
    }
  }

  lemma {:induction false} WithOpNone(cs: seq<Comparator>, op: Op)
    requires forall c :: c in cs ==> c.op != op
    ensures WithOp(cs, op) == []
  {
    if |cs| > 0 {
      assert cs[|cs| - 1] in cs;
      assert forall c :: c in cs[..|cs| - 1] ==> c in cs;
      WithOpNone(cs[..|cs| - 1], op);
    }
  }

  /** An element equal to `c` is already present. */
  predicate HasEqual(cs: seq<Comparator>, c: Comparator) {
    exists k :: 0 <= k < |cs| && Equals(cs[k], c)
  }

  /** `toSet()`: the first comparator of each equality class, in order of first appearance. */
  function Dedup(cs: seq<Comparator>): seq<Comparator> {
    if |cs| == 0 then []
    else
      var d := Dedup(cs[..|cs| - 1]);
      if HasEqual(d, cs[|cs| - 1]) then d else d + [cs[|cs| - 1]]
  }

  /** Every kept comparator comes from the input. */
  lemma {:induction false} DedupMembers(cs: seq<Comparator>)
    ensures forall k :: 0 <= k < |Dedup(cs)| ==> Dedup(cs)[k] in cs
  {
    if |cs| > 0 {
      var init := cs[..|cs| - 1];
      DedupMembers(init);
      assert forall c :: c in init ==> c in cs;
    }
  }

  /** Dropping comparators equal to kept ones changes nothing a version must meet. */
  lemma {:induction false} DedupMeaning(cs: seq<Comparator>, v: V.Version)
    requires RefsWellFormed(cs) && V.WellFormed(v)
    ensures AllHold(Dedup(cs), v) <==> AllHold(cs, v)
  {
    if |cs| > 0 {
      var init := cs[..|cs| - 1];
      var last := cs[|cs| - 1];
      assert cs == init + [last];
      DedupMeaning(init, v);
      AllHoldAppend(init, [last], v);
      var d := Dedup(init);
      AllHoldAppend(d, [last], v);
      if HasEqual(d, last) {
        DedupMembers(init);
        var k :| 0 <= k < |d| && Equals(d[k], last);
        assert d[k] in init;
        EqualsIsEquivalence(d[k], last, last, _ => 0, v);
      }
    }
  }

  /** The NEQ comparators, as the set the split loop goes through. */
  function NeqSet(cs: seq<Comparator>): seq<Comparator> {
    Dedup(WithOp(cs, NEQ))
  }

  lemma {:induction false} NeqSetMembers(cs: seq<Comparator>)
    ensures forall k :: 0 <= k < |NeqSet(cs)| ==> NeqSet(cs)[k].op == NEQ && NeqSet(cs)[k] in cs
  {
    DedupMembers(WithOp(cs, NEQ));
    WithOpMembers(cs, NEQ);
  }

  /** Some EQ comparator and some NEQ comparator have equal references. */
  predicate Clash(eqs: seq<Comparator>, neqs: seq<Comparator>) {
    exists i, j :: 0 <= i < |eqs| && 0 <= j < |neqs| && V.Equals(eqs[i].reference, neqs[j].reference)
  }

  /**
   * The candidate range of a conjunction: none on an EQ/NEQ clash or when the bounds cross,
   * otherwise from the greatest lower reference to the least upper one.
   */
  function Candidate(cs: seq<Comparator>): Option<VersionRange> {
    if Clash(Dedup(WithOp(cs, EQ)), NeqSet(cs)) then None
    else
      var lo := MaxOrNull(LowerRefs(cs));
      var hi := MinOrNull(UpperRefs(cs));
      if lo.Some? && hi.Some? && V.Compare(lo.value, hi.value) >= 0 then None
      else Some(VersionRange(lo, hi))
  }

  lemma {:induction false} RefsWellFormedBounds(cs: seq<Comparator>)
    requires RefsWellFormed(cs)
    ensures AllWellFormedVersions(LowerRefs(cs)) && AllWellFormedVersions(UpperRefs(cs))
  {
    var eqs := RefsWith(cs, {EQ});
    var sls := SmallestLargerAll(eqs);
    RefsWithMembers(cs, {GTE, EQ});
    RefsWithMembers(cs, {LT});
    RefsWithMembers(cs, {EQ});
    forall y | y in sls
      ensures V.WellFormed(y)
    {
      var k :| 0 <= k < |sls| && sls[k] == y;
      assert eqs[k] in eqs;
      V.SmallestLargerIsSuccessor(eqs[k], eqs[k]);
    }
  }

  /**
   * A version lies in the candidate exactly when it meets the non-NEQ comparators, and when
   * there is no candidate no version meets them all.
   */
  lemma {:induction false} CandidateMeaning(cs: seq<Comparator>, v: V.Version)
    requires RefsWellFormed(cs) && V.WellFormed(v)
    ensures Candidate(cs).Some? ==> WellFormed(Candidate(cs).value)
    ensures Candidate(cs).Some? ==> (Contains(Candidate(cs).value, v) <==> BoundsHold(cs, v))
    ensures Candidate(cs).None? ==> !AllHold(cs, v)
  {
    RefsWellFormedBounds(cs);
    BoundsMeaning(cs, v);
    var lower := LowerRefs(cs);
    var upper := UpperRefs(cs);
    MaxOrNullMeaning(lower, v);
    MinOrNullMeaning(upper, v);
    var eqs := Dedup(WithOp(cs, EQ));
    var neqs := NeqSet(cs);
    if Clash(eqs, neqs) {
      var i, j :| 0 <= i < |eqs| && 0 <= j < |neqs| && V.Equals(eqs[i].reference, neqs[j].reference);
      DedupMembers(WithOp(cs, EQ));
      DedupMembers(WithOp(cs, NEQ));
      WithOpMembers(cs, EQ);
      WithOpMembers(cs, NEQ);
      assert eqs[i] in WithOp(cs, EQ);
      assert neqs[j] in WithOp(cs, NEQ);
      var a :| 0 <= a < |cs| && cs[a] == eqs[i];
      var b :| 0 <= b < |cs| && cs[b] == neqs[j];
      V.CompareSubstitute(eqs[i].reference, neqs[j].reference, v);
      V.CompareAntisymmetric(v, eqs[i].reference);
      V.CompareAntisymmetric(v, neqs[j].reference);
      assert !(Holds(cs[a], v) && Holds(cs[b], v));
    } else {
      var lo := MaxOrNull(lower);
      var hi := MinOrNull(upper);
      if lo.Some? && hi.Some? && V.Compare(lo.value, hi.value) >= 0 {
        if BoundsHold(cs, v) {
          V.CompareIsTotalPreorder(lo.value, v, hi.value);
        }
      }
    }
  }

  // ---------------------------------------------------------------------------------------
  // Splitting around NEQ references

  /** `x` lies in the closed interval `[start, end]`; the split loop's search test. */
  predicate ClosedContains(r: VersionRange, x: V.Version) {
    (r.start.None? || V.Compare(r.start.value, x) <= 0) && (r.end.None? || V.Compare(x, r.end.value) <= 0)
  }

  /** `find`: the index of the first range whose closed interval holds `x`. */
  function Find(rs: seq<VersionRange>, x: V.Version): (r: Option<nat>)
    ensures r.Some? ==> r.value < |rs| && ClosedContains(rs[r.value], x)
    ensures r.Some? ==> forall k :: 0 <= k < r.value ==> !ClosedContains(rs[k], x)
    ensures r.None? ==> forall k :: 0 <= k < |rs| ==> !ClosedContains(rs[k], x)
  {
    FindFrom(rs, x, 0)
  }

  function FindFrom(rs: seq<VersionRange>, x: V.Version, i: nat): (r: Option<nat>)
    requires i <= |rs|
    ensures r.Some? ==> i <= r.value < |rs| && ClosedContains(rs[r.value], x)
    ensures r.Some? ==> forall k :: i <= k < r.value ==> !ClosedContains(rs[k], x)
    ensures r.None? ==> forall k :: i <= k < |rs| ==> !ClosedContains(rs[k], x)
    decreases |rs| - i
  {
    if i == |rs| then None
    else if ClosedContains(rs[i], x) then Some(i)
    else FindFrom(rs, x, i + 1)
  }

  /** `remove`: the ranges equal to `r` taken out. */
  function Remove(rs: seq<VersionRange>, r: VersionRange): seq<VersionRange> {
    if |rs| == 0 then []
    else (if RangeEquals(rs[0], r) then [] else [rs[0]]) + Remove(rs[1..], r)
  }

  /** `remove` keeps exactly the ranges not equal to `r`. */
  lemma {:induction false} RemoveMembers(rs: seq<VersionRange>, r: VersionRange)
    ensures forall e :: e in Remove(rs, r) <==> e in rs && !RangeEquals(e, r)
  {
    if |rs| > 0 {
      RemoveMembers(rs[1..], r);
      assert forall e :: e in rs <==> e == rs[0] || e in rs[1..];
    }
  }

  /** `add`: `r` appended unless an equal range is already present. */
  function Add(rs: seq<VersionRange>, r: VersionRange): seq<VersionRange> {
    if exists k :: 0 <= k < |rs| && RangeEquals(rs[k], r) then rs else rs + [r]
  }

  /** `add` keeps every range, adds nothing but `r`, and leaves `r` or an equal range present. */
  lemma {:induction false} AddMembers(rs: seq<VersionRange>, r: VersionRange)
    ensures forall e :: e in Add(rs, r) ==> e in rs || e == r
    ensures forall e :: e in rs ==> e in Add(rs, r)
    ensures r in Add(rs, r) || exists k :: 0 <= k < |rs| && RangeEquals(rs[k], r)
  {
  }

  /**
   * One NEQ reference: the range whose closed interval holds it is replaced by the part below
   * it and the part from its smallest larger version on, each left out when its bounds are equal.
   */
  function SplitAt(rs: seq<VersionRange>, x: V.Version): seq<VersionRange> {
    match Find(rs, x)
    case None => rs
    case Some(k) =>
      var r := rs[k];
      var up := V.SmallestLarger(x);
      var rs1 := Remove(rs, r);
      var rs2 := if !V.OptEquals(r.start, Some(x)) then Add(rs1, VersionRange(r.start, Some(x))) else rs1;
      if !V.OptEquals(Some(up), r.end) then Add(rs2, VersionRange(Some(up), r.end)) else rs2
  }

  /** The split loop over the NEQ comparators, in order. */
  function SplitAll(rs: seq<VersionRange>, neqs: seq<Comparator>): seq<VersionRange>
    decreases |neqs|
  {
    if |neqs| == 0 then rs else SplitAll(SplitAt(rs, neqs[0].reference), neqs[1..])
  }

  /** The ranges a conjunction contributes. */
  function Pieces(conj: seq<seq<Comparator>>): seq<VersionRange> {
    var cs := Flatten(conj);
    match Candidate(cs)
    case None => []
    case Some(c) => SplitAll([c], NeqSet(cs))
  }

  /** Both bounds present with the end below the start: the closed interval is empty. */
  predicate Hollow(r: VersionRange) {
    r.start.Some? && r.end.Some? && V.Compare(r.end.value, r.start.value) < 0
  }

  /** No version lies in both closed intervals. */
  predicate ClosedApart(a: VersionRange, b: VersionRange) {
    (a.end.Some? && b.start.Some? && V.Compare(a.end.value, b.start.value) < 0)
    || (b.end.Some? && a.start.Some? && V.Compare(b.end.value, a.start.value) < 0)
    || Hollow(a) || Hollow(b)
  }

  /** The split invariant: distinct ranges have disjoint closed intervals. */
  predicate Disjoint(rs: seq<VersionRange>) {
    forall a, b :: a in rs && b in rs && a != b ==> ClosedApart(a, b)
  }

  lemma {:induction false} ApartHaveNoCommonPoint(a: VersionRange, b: VersionRange, x: V.Version)
    requires WellFormed(a) && WellFormed(b) && V.WellFormed(x)
    requires ClosedApart(a, b)
    ensures !(ClosedContains(a, x) && ClosedContains(b, x))
  {
    if ClosedContains(a, x) && ClosedContains(b, x) {
      if a.end.Some? && b.start.Some? && V.Compare(a.end.value, b.start.value) < 0 {
        V.CompareIsTotalPreorder(b.start.value, x, a.end.value);
        V.CompareAntisymmetric(a.end.value, b.start.value);
      } else if b.end.Some? && a.start.Some? && V.Compare(b.end.value, a.start.value) < 0 {
        V.CompareIsTotalPreorder(a.start.value, x, b.end.value);
        V.CompareAntisymmetric(b.end.value, a.start.value);
      } else if Hollow(a) {
        V.CompareIsTotalPreorder(a.start.value, x, a.end.value);
        V.CompareAntisymmetric(a.end.value, a.start.value);
      } else {
        V.CompareIsTotalPreorder(b.start.value, x, b.end.value);
        V.CompareAntisymmetric(b.end.value, b.start.value);
      }
    }
  }

  /** `small`'s closed interval lies within `big`'s. */
  predicate SubRange(small: VersionRange, big: VersionRange) {
    (big.start.None? || (small.start.Some? && V.Compare(big.start.value, small.start.value) <= 0))
    && (big.end.None? || (small.end.Some? && V.Compare(small.end.value, big.end.value) <= 0))
  }

  lemma {:induction false} SubRangeApart(small: VersionRange, big: VersionRange, q: VersionRange)
    requires WellFormed(small) && WellFormed(big) && WellFormed(q)
    requires SubRange(small, big) && !Hollow(big) && ClosedApart(big, q)
    ensures ClosedApart(small, q)
  {
    if big.end.Some? && q.start.Some? && V.Compare(big.end.value, q.start.value) < 0 {
      V.CompareIsTotalPreorder(small.end.value, big.end.value, q.start.value);
    } else if q.end.Some? && big.start.Some? && V.Compare(q.end.value, big.start.value) < 0 {
      V.CompareIsTotalPreorder(q.end.value, big.start.value, small.start.value);
    }
  }

  /** The parts a split puts in place of a range holding `x` lie within it and apart from each other. */
  lemma {:induction false} SplitPartsInside(r: VersionRange, x: V.Version)
    requires WellFormed(r) && V.WellFormed(x) && ClosedContains(r, x)
    ensures !Hollow(r)
    ensures WellFormed(VersionRange(r.start, Some(x))) && WellFormed(VersionRange(Some(V.SmallestLarger(x)), r.end))
    ensures SubRange(VersionRange(r.start, Some(x)), r)
    ensures SubRange(VersionRange(Some(V.SmallestLarger(x)), r.end), r)
    ensures ClosedApart(VersionRange(r.start, Some(x)), VersionRange(Some(V.SmallestLarger(x)), r.end))
  {
    V.SmallestLargerIsSuccessor(x, x);
    if r.start.Some? && r.end.Some? {
      V.CompareIsTotalPreorder(r.start.value, x, r.end.value);
      V.CompareAntisymmetric(r.end.value, r.start.value);
    }
    if r.start.Some? {
      V.CompareIsTotalPreorder(r.start.value, x, V.SmallestLarger(x));
    }
    if r.end.Some? {
      V.CompareIsTotalPreorder(r.end.value, r.end.value, r.end.value);
    }
  }

  /**
   * After a split at `x` of the range `r` found for it, every range is one that is not equal to
   * `r`, or one of the two parts; every range not equal to `r` is kept.
   */
  lemma {:induction false} SplitAtMembers(rs: seq<VersionRange>, x: V.Version)
    requires Find(rs, x).Some?
    ensures var r := rs[Find(rs, x).value];
      var rs1 := Remove(rs, r);
      (forall e :: e in SplitAt(rs, x) ==>
        e in rs1 || e == VersionRange(r.start, Some(x)) || e == VersionRange(Some(V.SmallestLarger(x)), r.end))
      && forall e :: e in rs1 ==> e in SplitAt(rs, x)
  {
    var r := rs[Find(rs, x).value];
    var rs1 := Remove(rs, r);
    var lower := VersionRange(r.start, Some(x));
    AddMembers(rs1, lower);
    var rs2 := if !V.OptEquals(r.start, Some(x)) then Add(rs1, lower) else rs1;
    AddMembers(rs2, VersionRange(Some(V.SmallestLarger(x)), r.end));
  }

  /** Splitting keeps the ranges well-formed and their closed intervals apart. */
  lemma {:induction false} SplitAtKeepsDisjoint(rs: seq<VersionRange>, x: V.Version)
    requires RangesWellFormed(rs) && Disjoint(rs) && V.WellFormed(x)
    ensures RangesWellFormed(SplitAt(rs, x)) && Disjoint(SplitAt(rs, x))
  {
    var f := Find(rs, x);
    if f.Some? {
      var r := rs[f.value];
      assert r in rs;
      var lower := VersionRange(r.start, Some(x));
      var upper := VersionRange(Some(V.SmallestLarger(x)), r.end);
      SplitPartsInside(r, x);
      var rs1 := Remove(rs, r);
      var out := SplitAt(rs, x);
      RemoveMembers(rs, r);
      SplitAtMembers(rs, x);
      forall e | e in rs1
        ensures e != r && ClosedApart(e, r)
      {
        RangeEqualsIsEquivalence(r, r, r);
      }
      forall a, b | a in out && b in out && a != b
        ensures ClosedApart(a, b)
      {
        if a in rs1 && b !in rs1 {
          SubRangeApart(b, r, a);
        } else if a !in rs1 && b in rs1 {
          SubRangeApart(a, r, b);
        }
      }
    }
  }

  lemma {:induction false} InRangesMember(rs: seq<VersionRange>, v: V.Version)
    ensures InRanges(rs, v) <==> exists e :: e in rs && Contains(e, v)
  {
    if e :| e in rs && Contains(e, v) {
      var i :| 0 <= i < |rs| && rs[i] == e;
    }
  }

  /** Splitting at `x` removes exactly `x` (and the versions equal to it) from the union. */
  lemma {:induction false} SplitAtMeaning(rs: seq<VersionRange>, x: V.Version, v: V.Version)
    requires RangesWellFormed(rs) && Disjoint(rs) && V.WellFormed(x) && V.WellFormed(v)
    ensures InRanges(SplitAt(rs, x), v) <==> InRanges(rs, v) && V.Compare(v, x) != 0
  {
    InRangesMember(rs, v);
    InRangesMember(SplitAt(rs, x), v);
    var f := Find(rs, x);
    V.CompareAntisymmetric(v, x);
    if f.None? {
      if V.Compare(v, x) == 0 {
        forall e | e in rs
          ensures !Contains(e, v)
        {
          if e.start.Some? {
            V.CompareSubstitute(v, x, e.start.value);
          }
          if e.end.Some? {
            V.CompareSubstitute(v, x, e.end.value);
          }
        }
      }
    } else {
      var r := rs[f.value];
      assert r in rs;
      var up := V.SmallestLarger(x);
      var lower := VersionRange(r.start, Some(x));
      var upper := VersionRange(Some(up), r.end);
      SplitPartsInside(r, x);
      V.SmallestLargerIsSuccessor(x, v);
      var rs1 := Remove(rs, r);
      var rs2 := if !V.OptEquals(r.start, Some(x)) then Add(rs1, lower) else rs1;
      var out := SplitAt(rs, x);
      assert out == if !V.OptEquals(Some(up), r.end) then Add(rs2, upper) else rs2;
      RemoveMembers(rs, r);
      SplitAtMembers(rs, x);
      if e :| e in out && Contains(e, v) {
        if e in rs1 {
          if V.Compare(v, x) == 0 {
            RangeEqualsIsEquivalence(r, r, r);
            ContainsIsClosedContains(e, v, x);
            ApartHaveNoCommonPoint(e, r, x);
          }
        } else {
          LowerUpperInside(r, x, v);
        }
      }
      if e :| e in rs && Contains(e, v) && V.Compare(v, x) != 0 {
        if e !in rs1 {
          EqualRangesContainAlike(e, r, v);
          SplitCovers(r, x, v, rs1, out);
        }
      }
    }
  }

  /** A version in one of the two parts lies in the split range and is not `x`. */
  lemma {:induction false} LowerUpperInside(r: VersionRange, x: V.Version, v: V.Version)
    requires WellFormed(r) && V.WellFormed(x) && V.WellFormed(v) && ClosedContains(r, x)
    requires Contains(VersionRange(r.start, Some(x)), v) || Contains(VersionRange(Some(V.SmallestLarger(x)), r.end), v)
    ensures Contains(r, v) && V.Compare(v, x) != 0
  {
    V.SmallestLargerIsSuccessor(x, v);
    V.SmallestLargerIsSuccessor(x, x);
    if Contains(VersionRange(r.start, Some(x)), v) {
      if r.end.Some? {
        V.CompareIsTotalPreorder(v, x, r.end.value);
      }
    } else {
      V.CompareIsTotalPreorder(x, V.SmallestLarger(x), v);
      V.CompareAntisymmetric(v, x);
      if r.start.Some? {
        V.CompareIsTotalPreorder(r.start.value, x, v);
      }
    }
  }

  lemma {:induction false} ContainsIsClosedContains(e: VersionRange, v: V.Version, x: V.Version)
    requires WellFormed(e) && V.WellFormed(v) && V.WellFormed(x)
    requires Contains(e, v) && V.Compare(v, x) == 0
    ensures ClosedContains(e, x)
  {
    if e.start.Some? {
      V.CompareSubstitute(v, x, e.start.value);
    }
    if e.end.Some? {
      V.CompareSubstitute(v, x, e.end.value);
    }
  }

  /** A version of the split range other than `x` lies in one of the parts that are kept. */
  lemma {:induction false} SplitCovers(r: VersionRange, x: V.Version, v: V.Version, rs1: seq<VersionRange>, out: seq<VersionRange>)
    requires WellFormed(r) && V.WellFormed(x) && V.WellFormed(v) && ClosedContains(r, x)
    requires RangesWellFormed(rs1)
    requires Contains(r, v) && V.Compare(v, x) != 0
    requires var rs2 := if !V.OptEquals(r.start, Some(x)) then Add(rs1, VersionRange(r.start, Some(x))) else rs1;
      out == if !V.OptEquals(Some(V.SmallestLarger(x)), r.end) then Add(rs2, VersionRange(Some(V.SmallestLarger(x)), r.end)) else rs2
    ensures exists e :: e in out && Contains(e, v)
  {
    var lower := VersionRange(r.start, Some(x));
    var upper := VersionRange(Some(V.SmallestLarger(x)), r.end);
    var rs2 := if !V.OptEquals(r.start, Some(x)) then Add(rs1, lower) else rs1;
    AddMembers(rs2, upper);
    SplitPartsInside(r, x);
    V.SmallestLargerIsSuccessor(x, v);
    V.CompareAntisymmetric(v, x);
    assert forall e :: e in rs2 ==> e in out;
    if V.Compare(v, x) < 0 {
      assert Contains(lower, v);
      if r.start.Some? && V.OptEquals(r.start, Some(x)) {
        V.CompareSubstitute(r.start.value, x, v);
      }
      AddCovers(rs1, lower, v);
    } else {
      assert Contains(upper, v) by {
        V.CompareAntisymmetric(v, V.SmallestLarger(x));
        if r.end.Some? {
          V.CompareAntisymmetric(v, r.end.value);
        }
      }
      if r.end.Some? && V.OptEquals(Some(V.SmallestLarger(x)), r.end) {
        V.CompareSubstitute(V.SmallestLarger(x), r.end.value, v);
      }
      AddCovers(rs2, upper, v);
    }
  }

  /** After `add`, a version of the added range lies in the result. */
  lemma {:induction false} AddCovers(rs: seq<VersionRange>, a: VersionRange, v: V.Version)
    requires RangesWellFormed(rs) && WellFormed(a) && Contains(a, v)
    ensures exists e :: e in Add(rs, a) && Contains(e, v)
  {
    AddMembers(rs, a);
    if k :| 0 <= k < |rs| && RangeEquals(rs[k], a) {
      assert rs[k] in rs;
      EqualRangesContainAlike(rs[k], a, v);
      assert rs[k] in Add(rs, a);
    } else {
      assert a in Add(rs, a);
    }
  }

  /** The split loop keeps its invariant and removes every NEQ reference from the union. */
  lemma {:induction false} SplitAllMeaning(rs: seq<VersionRange>, neqs: seq<Comparator>, v: V.Version)
    requires RangesWellFormed(rs) && Disjoint(rs) && RefsWellFormed(neqs) && V.WellFormed(v)
    requires forall k :: 0 <= k < |neqs| ==> neqs[k].op == NEQ
    ensures RangesWellFormed(SplitAll(rs, neqs)) && Disjoint(SplitAll(rs, neqs))
    ensures InRanges(SplitAll(rs, neqs), v) <==> InRanges(rs, v) && AllHold(neqs, v)
    decreases |neqs|
  {
    if |neqs| > 0 {
      var x := neqs[0].reference;
      SplitAtKeepsDisjoint(rs, x);
      SplitAtMeaning(rs, x, v);
      assert RefsWellFormed(neqs[1..]) by {
        forall k | 0 <= k < |neqs[1..]|
          ensures V.WellFormed(neqs[1..][k].reference)
        {
          assert neqs[1..][k] == neqs[k + 1];
        }
      }
      SplitAllMeaning(SplitAt(rs, x), neqs[1..], v);
      AllHoldAppend([neqs[0]], neqs[1..], v);
      assert neqs == [neqs[0]] + neqs[1..];
    }
  }

  lemma {:induction false} WithOpMeaning(cs: seq<Comparator>, v: V.Version)
    ensures AllHold(WithOp(cs, NEQ), v) <==> NeqsHold(cs, v)
    ensures RefsWellFormed(cs) ==> RefsWellFormed(WithOp(cs, NEQ))
  {
    var w := WithOp(cs, NEQ);
    WithOpMembers(cs, NEQ);
    if AllHold(w, v) {
      forall i | 0 <= i < |cs| && cs[i].op == NEQ
        ensures Holds(cs[i], v)
      {
        assert cs[i] in w;
      }
    }
  }

  /** A version lies in one of a conjunction's ranges exactly when it satisfies every predicate. */
  lemma {:induction false} PiecesMeaning(conj: seq<seq<Comparator>>, v: V.Version)
    requires ConjWellFormed(conj) && V.WellFormed(v)
    ensures RangesWellFormed(Pieces(conj))
    ensures InRanges(Pieces(conj), v) <==> SatisfiesAll(conj, v)
  {
    var cs := Flatten(conj);
    FlattenMeaning(conj, v);
    CandidateMeaning(cs, v);
    var c := Candidate(cs);
    if c.Some? {
      var neqs := NeqSet(cs);
      NeqSetMembers(cs);
      WithOpMeaning(cs, v);
      DedupMeaning(WithOp(cs, NEQ), v);
      assert RefsWellFormed(neqs) by {
        forall k | 0 <= k < |neqs|
          ensures V.WellFormed(neqs[k].reference)
        {
          assert neqs[k] in cs;
        }
      }
      SplitAllMeaning([c.value], neqs, v);
      assert InRanges([c.value], v) <==> Contains(c.value, v) by {
        InRangesMember([c.value], v);
      }
      assert AllHold(cs, v) <==> BoundsHold(cs, v) && NeqsHold(cs, v);
    }
  }

  /** One pass of the normalizer's outer loop: the ranges one conjunction contributes. */
  method ConjunctionRanges(conj: seq<seq<Comparator>>) returns (rs: seq<VersionRange>)
    ensures rs == Pieces(conj)
  {
    var cs := Flatten(conj);
    var eqs := Dedup(WithOp(cs, EQ));
    var neqs := NeqSet(cs);
    if Clash(eqs, neqs) {
      return [];
    }
    var lo := MaxOrNull(LowerRefs(cs));
    var hi := MinOrNull(UpperRefs(cs));
    if lo.Some? && hi.Some? && V.Compare(lo.value, hi.value) >= 0 {
      return [];
    }
    rs := [VersionRange(lo, hi)];
    for j := 0 to |neqs|
      invariant SplitAll(rs, neqs[j..]) == Pieces(conj)
    {
      assert neqs[j..][1..] == neqs[j + 1..];
      ghost var before := rs;
      var x := neqs[j].reference;
      var found := Find(rs, x);
      if found.Some? {
        var range := rs[found.value];
        rs := Remove(rs, range);
        if !V.OptEquals(range.start, Some(x)) {
          rs := Add(rs, VersionRange(range.start, Some(x)));
        }
        var upperStart := V.SmallestLarger(x);
        if !V.OptEquals(Some(upperStart), range.end) {
          rs := Add(rs, VersionRange(Some(upperStart), range.end));
        }
      }
      assert rs == SplitAt(before, x);
    }
  }
}
