/**
 * The NPM predicates: any version, caret, tilde, hyphen and X ranges, and a single operator
 * applied to a descriptor. Each one yields the comparators a version must pass; the range kinds
 * go through the `[start, end)` range predicate and its check that start lies below end.
 */
module NpmPredicates {
  import opened Wrappers
  import opened Strings
  import PR = PreReleases
  import V = Versions
  import C = Comparators
  import O = NpmOps
  import D = NpmDescriptors

  datatype NpmPredicate =
    | AnyVersion(str: string)
    | Caret(descriptor: Option<D.Descriptor>)
    | ComparatorPredicate(operand: D.Descriptor, op: Option<O.Op>)
    | Hyphen(lowerBound: D.Descriptor, upperBound: D.Descriptor)
    | Tilde(descriptor: Option<D.Descriptor>)
    | XRange(descriptor: Option<D.Descriptor>)

  /** Kotlin's `!!`: the value, or a null-dereference error. */
  function NotNull<T>(x: Option<T>): Result<T> {
    if x.Some? then Ok(x.value) else Err(NullDereference)
  }

  /** `SemanticVersion(major, minor, patch, "0")`: the least version with these numbers. */
  function ZeroPre(major: int, minor: int, patch: int): (r: Result<V.Version>)
    requires V.IsInt(major) && V.IsInt(minor) && V.IsInt(patch)
    ensures r.Ok? <==> 0 <= major && 0 <= minor && 0 <= patch
    ensures r.Ok? ==> r.value == V.Version(major, minor, patch, Some(PR.Min), None)
    ensures r.Err? ==> r.error == VersionFormat
  {
    if 0 <= major && 0 <= minor && 0 <= patch then
      V.CreateZeroPreRelease(major, minor, patch);
      V.Create(major, minor, patch, Some("0"), None)
    else
      V.Create(major, minor, patch, Some("0"), None)
  }

  /** The caret range's own wildcard test: "x" or "X" only. */
  predicate CaretIsX(s: string) {
    s == "x" || s == "X"
  }

  /**
   * The caret range's end: none for no descriptor, "*" or an "x" major; otherwise the next
   * major, or for a 0 major the next minor, or for 0.0 the patch itself, each with pre-release "0".
   */
  function CaretEnd(d: Option<D.Descriptor>): Result<Option<V.Version>> {
    if d.None? || d.value.Star? then Ok(None)
    else
      var r := d.value;
      if CaretIsX(r.majorString) then Ok(None)
      else if D.Major(r) != Some(0) || D.Minor(r).None? || CaretIsX(r.minorString.value) then
        var major :- NotNull(D.Major(r));
        var e :- ZeroPre(V.IntInc(major), 0, 0);
        Ok(Some(e))
      else if D.Minor(r) != Some(0) || D.Patch(r).None? || CaretIsX(r.patchString.value) then
        var e :- ZeroPre(D.Major(r).value, V.IntInc(D.Minor(r).value), 0);
        Ok(Some(e))
      else
        var e :- ZeroPre(D.Major(r).value, D.Minor(r).value, D.Patch(r).value);
        Ok(Some(e))
  }

  /** The hyphen range's end: none for "*" or a wildcard major; else the next major or minor for a partial bound, or the least version above a full one. */
  function HyphenEnd(u: D.Descriptor): Result<Option<V.Version>> {
    if u.Star? || O.IsX(Some(u.majorString)) then Ok(None)
    else if D.Minor(u).None? then
      var t :- D.ToVersion(u);
      var v :- NotNull(t);
      var e :- V.NextMajor(v, Some("0"));
      Ok(Some(e))
    else if D.Patch(u).None? then
      var t :- D.ToVersion(u);
      var v :- NotNull(t);
      var e :- V.NextMinor(v, Some("0"));
      Ok(Some(e))
    else
      var t :- D.ToVersion(u);
      Ok(if t.Some? then Some(V.SmallestLarger(t.value)) else None)
  }

  /** The tilde range's end: the next minor when a patch is given, else the next major, with pre-release "0". */
  function TildeEnd(d: Option<D.Descriptor>): Result<Option<V.Version>> {
    if d.None? || d.value.Star? then Ok(None)
    else
      var t :- D.ToVersion(d.value);
      if t.None? then Ok(None)
      else if D.Patch(d.value).Some? then
        var e :- V.NextMinor(t.value, Some("0"));
        Ok(Some(e))
      else
        var e :- V.NextMajor(t.value, Some("0"));
        Ok(Some(e))
  }

  /** The X range's start: none for no descriptor, "*" or a wildcard major; else the descriptor's version. */
  function XRangeStart(d: Option<D.Descriptor>): Result<Option<V.Version>> {
    if d.None? || d.value.Star? || O.IsX(Some(d.value.majorString)) then Ok(None)
    else D.ToVersion(d.value)
  }

  /** The X range's end: one past the last component given, with pre-release "0". */
  function XRangeEnd(d: Option<D.Descriptor>): Result<Option<V.Version>> {
    if d.None? || d.value.Star? || O.IsX(Some(d.value.majorString)) then Ok(None)
    else
      var r := d.value;
      if D.Minor(r).None? || O.IsX(r.minorString) then
        var major :- NotNull(D.Major(r));
        var e :- ZeroPre(V.IntInc(major), 0, 0);
        Ok(Some(e))
      else if D.Patch(r).None? || O.IsX(r.patchString) then
        var major :- NotNull(D.Major(r));
        var minor :- NotNull(D.Minor(r));
        var e :- ZeroPre(major, V.IntInc(minor), 0);
        Ok(Some(e))
      else
        var major :- NotNull(D.Major(r));
        var minor :- NotNull(D.Minor(r));
        var patch :- NotNull(D.Patch(r));
        var e :- ZeroPre(major, minor, V.IntInc(patch));
        Ok(Some(e))
  }

  /** The range predicate behind every kind but the single operator. */
  function Range(p: NpmPredicate): Result<C.RangePredicate>
    requires !p.ComparatorPredicate?
  {
    match p
    case AnyVersion(_) => C.RangeOf(Ok(None), Ok(None))
    case Caret(d) => C.RangeOf(D.OptToVersion(d), CaretEnd(d))
    case Hyphen(l, u) => C.RangeOf(D.ToVersion(l), HyphenEnd(u))
    case Tilde(d) => C.RangeOf(D.OptToVersion(d), TildeEnd(d))
    case XRange(d) => C.RangeOf(XRangeStart(d), XRangeEnd(d))
  }

  /** Below 0.0.0-0: the comparator no version passes. */
  const NothingAccepted: seq<C.Comparator> := [C.Comparator(C.LT, V.Least)]

  /** The early return of a single-operator predicate: "<" or ">" with "*" or a wildcard major. */
  predicate AcceptsNothing(d: D.Descriptor, op: Option<O.Op>) {
    (op == Some(O.LessThan) || op == Some(O.GreaterThan)) && (d.Star? || O.IsX(Some(d.majorString)))
  }

  /** The comparator operator an NPM operator becomes; no operator means equality. */
  function ComparatorOp(op: Option<O.Op>): C.Op {
    if op.None? || op.value == O.Equal then C.EQ
    else if op.value == O.LessThan || op.value == O.LessThanOrEqual then C.LT
    else C.GTE
  }

  /** The reference version of a single-operator predicate, or none for "*". */
  function Reference(d: D.Descriptor, op: Option<O.Op>): Result<Option<V.Version>>
    requires !AcceptsNothing(d, op)
  {
    if op == Some(O.LessThanOrEqual) then
      var t :- D.ToVersion(d);
      Ok(if t.Some? then Some(V.SmallestLarger(t.value)) else None)
    else if op == Some(O.LessThan) then
      var t :- D.ToVersion(d);
      if t.None? then Ok(None)
      else if D.Minor(d).None? || D.Patch(d).None? then
        var c :- V.Copy(t.value.major, t.value.minor, t.value.patch, Some("0"), t.value.build);
        Ok(Some(c))
      else Ok(t)
    else if op == Some(O.GreaterThan) then
      var t :- D.ToVersion(d);
      if t.None? then Ok(None)
      else if D.Minor(d).None? then
        var e :- V.NextMajor(t.value, Some("0"));
        Ok(Some(e))
      else if D.Patch(d).None? then
        var e :- V.NextMinor(t.value, Some("0"));
        Ok(Some(e))
      else if d.preRelease.None? then
        var e :- V.NextPatch(t.value, Some("0"));
        Ok(Some(e))
      else Ok(t)
    else D.ToVersion(d)
  }

  /** The comparators of a single-operator predicate: one comparator, or none when there is no reference. */
  function OperatorComparators(d: D.Descriptor, op: Option<O.Op>): Result<seq<C.Comparator>> {
    if AcceptsNothing(d, op) then Ok(NothingAccepted)
    else
      var reference :- Reference(d, op);
      Ok(if reference.Some? then [C.Comparator(ComparatorOp(op), reference.value)] else [])
  }

  /** `comparators`, for every kind of predicate. Construction errors surface here. */
  function Comparators(p: NpmPredicate): Result<seq<C.Comparator>> {
    if p.ComparatorPredicate? then OperatorComparators(p.operand, p.op)
    else
      var r :- Range(p);
      Ok(C.Comparators(r))
  }

  /** `toString` of each kind; an absent descriptor renders as nothing, or as "null" for an X range. */
  function ToString(p: NpmPredicate): string {
    match p
    case AnyVersion(str) => str
    case Caret(d) => "^" + (if d.Some? then D.ToString(d.value) else "")
    case ComparatorPredicate(d, op) => (if op.Some? then O.ToString(op.value) else "") + D.ToString(d)
    case Hyphen(l, u) => D.ToString(l) + "-" + D.ToString(u)
    case Tilde(d) => "~" + (if d.Some? then D.ToString(d.value) else "")
    case XRange(d) => if d.Some? then D.ToString(d.value) else "null"
  }

  /** `normalizeEq`: a missing operator is equality. */
  function NormalizedOp(op: Option<O.Op>): O.Op {
    if op.None? then O.Equal else op.value
  }

  /** `equals` of single-operator predicates: the same descriptor and the same operator once normalized. */
  function OperatorEquals(a: NpmPredicate, b: NpmPredicate): bool
    requires a.ComparatorPredicate?
  {
    b.ComparatorPredicate? && a.operand == b.operand && NormalizedOp(a.op) == NormalizedOp(b.op)
  }

  /**
   * `hashCode` of a single-operator predicate: that of its normalized copy, 31 times the
   * descriptor's hash plus the operator's. Both are runtime hashes and so parameters.
   */
  function OperatorHash(p: NpmPredicate, descriptorHash: D.Descriptor -> int, opHash: O.Op -> int): int
    requires p.ComparatorPredicate?
  {
    Wrap32(31 * descriptorHash(p.operand) + opHash(NormalizedOp(p.op)))
  }

  /**
   * Equality of single-operator predicates is an equivalence, and equal ones hash alike and
   * yield the same comparators: a missing operator and "=" mean the same.
   */
  lemma {:induction false} OperatorEqualsAgree(a: NpmPredicate, b: NpmPredicate, c: NpmPredicate, descriptorHash: D.Descriptor -> int, opHash: O.Op -> int)
    requires a.ComparatorPredicate? && b.ComparatorPredicate? && c.ComparatorPredicate?
    ensures OperatorEquals(a, a)
    ensures OperatorEquals(a, b) ==> OperatorEquals(b, a)
    ensures OperatorEquals(a, b) && OperatorEquals(b, c) ==> OperatorEquals(a, c)
    ensures OperatorEquals(a, b) ==> OperatorHash(a, descriptorHash, opHash) == OperatorHash(b, descriptorHash, opHash)
    ensures OperatorEquals(a, b) ==> Comparators(a) == Comparators(b)
  {
    if OperatorEquals(a, b) {
      assert a.op == b.op || (NormalizedOp(a.op) == O.Equal && NormalizedOp(b.op) == O.Equal);
    }
  }

  /**
   * A single-operator predicate with an operator reads its operator back off the front of its
   * rendering, when the descriptor starts with a digit.
   */
  lemma {:induction false} OperatorToStringReadsBack(d: D.Descriptor, op: O.Op)
    requires d.Regular? && |d.majorString| > 0 && IsDigit(d.majorString[0])
    ensures O.StartsWithOperator(ToString(ComparatorPredicate(d, Some(op)))) == Some(op)
  {
    var sym := O.ToString(op);
    var rest := D.ToString(d);
    assert rest == d.majorString + rest[|d.majorString|..];
    var s := ToString(ComparatorPredicate(d, Some(op)));
    assert s == sym + rest;
    O.StartsWithOperatorMeaning(s);
    O.ToOperatorRoundTrip(op, sym);
    if |sym| == 1 {
      assert s[..1] == sym;
      assert s[..2] == sym + [d.majorString[0]];
      O.ToOperatorRoundTrip(op, s[..2]);
    } else {
      assert s[..2] == sym;
    }
  }

  /** Nothing, no descriptor or "*" as a range, and a wildcard major as an X range, accept every version. */
  lemma {:induction false} UnboundedKinds(str: string, d: Option<D.Descriptor>)
    requires d.None? || d.value.Star?
    ensures Comparators(AnyVersion(str)) == Ok([])
    ensures Comparators(Caret(d)) == Ok([])
    ensures Comparators(Tilde(d)) == Ok([])
    ensures Comparators(XRange(d)) == Ok([])
    ensures Comparators(XRange(Some(D.Regular("x", None, None, None)))) == Ok([])
    ensures Comparators(ComparatorPredicate(D.Star, None)) == Ok([])
    ensures Comparators(ComparatorPredicate(D.Star, Some(O.LessThanOrEqual))) == Ok([])
  {
  }

  /** "<*" and ">*" yield the comparator below 0.0.0-0, which no version passes. */
  lemma {:induction false} NothingBelowLeast(op: O.Op, v: V.Version)
    requires op == O.LessThan || op == O.GreaterThan
    requires V.WellFormed(v)
    ensures Comparators(ComparatorPredicate(D.Star, Some(op))) == Ok(NothingAccepted)
    ensures !C.AllHold(NothingAccepted, v)
    ensures ZeroPre(0, 0, 0) == Ok(V.Least)
  {
    V.ZeroPartValid();
    V.LeastIsLeast(v);
    assert C.Holds(NothingAccepted[0], v) ==> V.Compare(v, V.Least) < 0;
    V.CompareAntisymmetric(v, V.Least);
  }

  /**
   * A descriptor that names its numbers outright: a non-negative major, and minor and patch
   * where given, all below the largest `Int` so that one more still fits, and a validated
   * pre-release.
   */
  predicate Numeric(d: D.Descriptor) {
    d.Regular? && D.Major(d).Some? && 0 <= D.Major(d).value < MaxInt
    && (D.Minor(d).Some? ==> 0 <= D.Minor(d).value < MaxInt)
    && (D.Patch(d).Some? ==> 0 <= D.Patch(d).value < MaxInt)
    && (d.preRelease.Some? ==> PR.Valid(d.preRelease.value))
  }

  /** The version such a descriptor names, absent components as 0. */
  function StartOf(d: D.Descriptor): (v: V.Version)
    requires Numeric(d)
    ensures V.Valid(v)
  {
    V.Version(D.Major(d).value, D.OrZero(D.Minor(d)), D.OrZero(D.Patch(d)), d.preRelease, None)
  }

  /** What the descriptor's version is, and that a numeric major is no wildcard. */
  lemma {:induction false} NumericFacts(d: D.Descriptor)
    requires Numeric(d)
    ensures D.ToVersion(d) == Ok(Some(StartOf(d)))
    ensures !O.IsX(Some(d.majorString)) && !CaretIsX(d.majorString)
    ensures D.Minor(d).Some? ==> d.minorString.Some? && !O.IsX(d.minorString) && !CaretIsX(d.minorString.value)
    ensures D.Patch(d).Some? ==> d.patchString.Some? && !O.IsX(d.patchString) && !CaretIsX(d.patchString.value)
  {
    D.ToVersionMeaning(d);
    D.AccessorsMeaning(d);
    NotWildcard(d.majorString);
    if D.Minor(d).Some? {
      NotWildcard(d.minorString.value);
    }
    if D.Patch(d).Some? {
      NotWildcard(d.patchString.value);
    }
  }

  /** A text that reads as a number is none of the wildcards. */
  lemma {:induction false} NotWildcard(s: string)
    requires ToIntOrNull(s).Some?
    ensures s !in {"", "x", "X", "*"}
  {
  }

  /** `[start, major.minor.patch-0)` accepts exactly the versions from `start` whose numbers come before. */
  lemma {:induction false} BelowZeroPreRange(start: V.Version, major: nat, minor: nat, patch: nat, v: V.Version)
    requires V.WellFormed(start) && V.WellFormed(v)
    ensures C.MakeRangePredicate(Some(start), Some(V.Version(major, minor, patch, Some(PR.Min), None))).Ok?
      <==> V.NumbersBefore(start, major, minor, patch)
    ensures C.AllHold(C.Comparators(C.RangePredicate(Some(start), Some(V.Version(major, minor, patch, Some(PR.Min), None)))), v)
      <==> V.Compare(start, v) <= 0 && V.NumbersBefore(v, major, minor, patch)
  {
    var e := V.Version(major, minor, patch, Some(PR.Min), None);
    C.ComparatorsMeanRange(C.RangePredicate(Some(start), Some(e)), v);
    V.BelowZeroPreRelease(v, major, minor, patch);
    V.BelowZeroPreRelease(start, major, minor, patch);
  }

  /** A version at or above `start` has numbers no smaller than `start`'s. */
  lemma {:induction false} AtLeastNumbers(start: V.Version, v: V.Version)
    ensures V.Compare(start, v) <= 0 ==> !V.NumbersBefore(v, start.major, start.minor, start.patch)
  {
  }

  /** The descriptor's numbers, for a version: major, then minor and patch as far as they are given. */
  predicate SharesPrefix(d: D.Descriptor, v: V.Version)
    requires Numeric(d)
  {
    v.major == D.Major(d).value
    && (D.Minor(d).Some? ==> v.minor == D.Minor(d).value && (D.Patch(d).Some? ==> v.patch == D.Patch(d).value))
  }

  /** The least version with the given numbers, `major.minor.patch-0`. */
  function LeastWith(n: (nat, nat, nat)): V.Version {
    V.Version(n.0, n.1, n.2, Some(PR.Min), None)
  }

  /** The numbers an X range ends at: one past the last component given. */
  function XRangeEndNumbers(d: D.Descriptor): (nat, nat, nat)
    requires Numeric(d)
  {
    if D.Minor(d).None? then (D.Major(d).value + 1, 0, 0)
    else if D.Patch(d).None? then (D.Major(d).value, D.Minor(d).value + 1, 0)
    else (D.Major(d).value, D.Minor(d).value, D.Patch(d).value + 1)
  }

  /** The range an X range on a numeric descriptor is made of. */
  lemma {:induction false} XRangeForm(d: D.Descriptor)
    requires Numeric(d)
    ensures Range(XRange(Some(d))) == C.MakeRangePredicate(Some(StartOf(d)), Some(LeastWith(XRangeEndNumbers(d))))
  {
    NumericFacts(d);
  }

  /**
   * An X range accepts exactly the versions from its descriptor's version on that share the
   * components it gives: "1.2.x" is every 1.2 version from 1.2.0.
   */
  lemma {:induction false} XRangeMeaning(d: D.Descriptor, v: V.Version)
    requires Numeric(d) && V.WellFormed(v)
    ensures Comparators(XRange(Some(d))).Ok?
    ensures C.AllHold(Comparators(XRange(Some(d))).value, v) <==> V.Compare(StartOf(d), v) <= 0 && SharesPrefix(d, v)
  {
    XRangeForm(d);
    var s := StartOf(d);
    var n := XRangeEndNumbers(d);
    AtLeastNumbers(s, v);
    BelowZeroPreRange(s, n.0, n.1, n.2, v);
  }

  /** An X range on the largest `Int` major cannot form its end: one more wraps to a negative number. */
  lemma {:induction false} XRangeMajorOverflow(d: D.Descriptor)
    requires d.Regular? && D.Major(d) == Some(MaxInt) && d.minorString.None? && d.patchString.None? && d.preRelease.None?
    ensures Comparators(XRange(Some(d))) == Err(VersionFormat)
  {
    D.AccessorsMeaning(d);
    NotWildcard(d.majorString);
  }

  /** The numbers a tilde range ends at: the next minor when a patch is given, else the next major. */
  function TildeEndNumbers(d: D.Descriptor): (nat, nat, nat)
    requires Numeric(d)
  {
    if D.Patch(d).Some? then (D.Major(d).value, D.OrZero(D.Minor(d)) + 1, 0)
    else (D.Major(d).value + 1, 0, 0)
  }

  /** The range a tilde range on a numeric descriptor is made of. */
  lemma {:induction false} TildeForm(d: D.Descriptor)
    requires Numeric(d)
    ensures Range(Tilde(Some(d))) == C.MakeRangePredicate(Some(StartOf(d)), Some(LeastWith(TildeEndNumbers(d))))
  {
    NumericFacts(d);
    var n := TildeEndNumbers(d);
    V.CreateZeroPreRelease(n.0, n.1, n.2);
  }

  /**
   * A tilde range accepts the versions from its descriptor's version with the same major, and
   * also the same minor when a patch is given: "~1.2.3" stays below 1.3.0-0, while "~1.2"
   * reaches up to 2.0.0-0.
   */
  lemma {:induction false} TildeMeaning(d: D.Descriptor, v: V.Version)
    requires Numeric(d) && V.WellFormed(v)
    ensures Comparators(Tilde(Some(d))).Ok?
    ensures C.AllHold(Comparators(Tilde(Some(d))).value, v)
      <==> V.Compare(StartOf(d), v) <= 0 && v.major == D.Major(d).value
           && (D.Patch(d).Some? ==> v.minor == D.OrZero(D.Minor(d)))
  {
    TildeForm(d);
    var s := StartOf(d);
    var n := TildeEndNumbers(d);
    AtLeastNumbers(s, v);
    BelowZeroPreRange(s, n.0, n.1, n.2, v);
  }

  /** "~2.4" accepts 2.5.0: without a patch the tilde range runs to the next major. */
  lemma {:induction false} TildeWithoutPatchSpansMinors(d: D.Descriptor)
    requires Numeric(d) && D.Minor(d).Some? && D.Patch(d).None?
    ensures Comparators(Tilde(Some(d))).Ok?
    ensures C.AllHold(Comparators(Tilde(Some(d))).value, V.Version(D.Major(d).value, D.Minor(d).value + 1, 0, None, None))
  {
    TildeMeaning(d, V.Version(D.Major(d).value, D.Minor(d).value + 1, 0, None, None));
  }

  /** A caret range on a 0.0 descriptor with a patch, such as "^0.0.1", ends at its own numbers and so is rejected. */
  predicate CaretOnPatch(d: D.Descriptor)
    requires Numeric(d)
  {
    D.Major(d) == Some(0) && D.Minor(d) == Some(0) && D.Patch(d).Some?
  }

  /** The numbers a caret range ends at: past the leftmost non-zero component given. */
  function CaretEndNumbers(d: D.Descriptor): (nat, nat, nat)
    requires Numeric(d)
  {
    if D.Major(d) != Some(0) || D.Minor(d).None? then (D.Major(d).value + 1, 0, 0)
    else if D.Minor(d) != Some(0) || D.Patch(d).None? then (0, D.Minor(d).value + 1, 0)
    else (0, 0, D.Patch(d).value)
  }

  /** The range a caret range on a numeric descriptor is made of. */
  lemma {:induction false} CaretForm(d: D.Descriptor)
    requires Numeric(d)
    ensures Range(Caret(Some(d))) == C.MakeRangePredicate(Some(StartOf(d)), Some(LeastWith(CaretEndNumbers(d))))
  {
    NumericFacts(d);
  }

  /**
   * A caret range keeps the leftmost non-zero component given: the same major, or for a 0
   * major the same minor; on 0.0 with a patch the end falls at or below the start and the
   * predicate is rejected.
   */
  lemma {:induction false} CaretMeaning(d: D.Descriptor, v: V.Version)
    requires Numeric(d) && V.WellFormed(v)
    ensures CaretOnPatch(d) <==> Comparators(Caret(Some(d))) == Err(ConstraintFormat)
    ensures Comparators(Caret(Some(d))).Ok? ==>
      (C.AllHold(Comparators(Caret(Some(d))).value, v)
       <==> V.Compare(StartOf(d), v) <= 0 && v.major == D.Major(d).value
            && (D.Major(d) == Some(0) && D.Minor(d).Some? ==> v.minor == D.Minor(d).value))
  {
    CaretForm(d);
    var s := StartOf(d);
    var n := CaretEndNumbers(d);
    AtLeastNumbers(s, v);
    BelowZeroPreRange(s, n.0, n.1, n.2, v);
  }

  /** "^*.1" style: a caret descriptor whose major is "*" has no number, and `major!!` fails. */
  lemma {:induction false} CaretStarMajorFails()
    ensures Comparators(Caret(Some(D.Regular("*", None, None, None)))) == Err(NullDereference)
  {
    var d := D.Regular("*", None, None, None);
    assert "*"[0] == '*';
    assert !AllDigits("*");
    assert D.Major(d) == None;
  }

  /** The hyphen range's end for a numeric upper bound. */
  function HyphenEndOf(u: D.Descriptor): V.Version
    requires Numeric(u)
  {
    if D.Minor(u).None? then LeastWith((D.Major(u).value + 1, 0, 0))
    else if D.Patch(u).None? then LeastWith((D.Major(u).value, D.Minor(u).value + 1, 0))
    else V.SmallestLarger(StartOf(u))
  }

  /** The range a hyphen range on numeric bounds is made of. */
  lemma {:induction false} HyphenForm(l: D.Descriptor, u: D.Descriptor)
    requires Numeric(l) && Numeric(u)
    ensures Range(Hyphen(l, u)) == C.MakeRangePredicate(Some(StartOf(l)), Some(HyphenEndOf(u)))
  {
    NumericFacts(l);
    NumericFacts(u);
    var t := StartOf(u);
    if D.Minor(u).None? {
      V.CreateZeroPreRelease(t.major + 1, 0, 0);
    } else if D.Patch(u).None? {
      V.CreateZeroPreRelease(t.major, t.minor + 1, 0);
    }
  }

  /** Whether a version is at most the hyphen range's upper bound, as its end reads it. */
  predicate UpTo(u: D.Descriptor, v: V.Version)
    requires Numeric(u)
  {
    if D.Minor(u).None? then v.major <= D.Major(u).value
    else if D.Patch(u).None? then V.NumbersBefore(v, D.Major(u).value, D.Minor(u).value + 1, 0)
    else V.Compare(v, StartOf(u)) <= 0
  }

  /** Below the hyphen range's end is exactly within its upper bound. */
  lemma {:induction false} BelowHyphenEnd(u: D.Descriptor, v: V.Version)
    requires Numeric(u) && V.WellFormed(v)
    ensures V.Compare(v, HyphenEndOf(u)) < 0 <==> UpTo(u, v)
  {
    if D.Minor(u).None? {
      V.BelowZeroPreRelease(v, D.Major(u).value + 1, 0, 0);
    } else if D.Patch(u).None? {
      V.BelowZeroPreRelease(v, D.Major(u).value, D.Minor(u).value + 1, 0);
    } else {
      V.SmallestLargerIsSuccessor(StartOf(u), v);
    }
  }

  /**
   * A hyphen range "l - u" is formed exactly when the lower version lies within the upper
   * bound, and then accepts the versions from the lower one up to the upper bound, a partial
   * upper bound covering every version it leaves open.
   */
  lemma {:induction false} HyphenMeaning(l: D.Descriptor, u: D.Descriptor, v: V.Version)
    requires Numeric(l) && Numeric(u) && V.WellFormed(v)
    ensures Comparators(Hyphen(l, u)).Ok? <==> UpTo(u, StartOf(l))
    ensures Comparators(Hyphen(l, u)).Err? ==> Comparators(Hyphen(l, u)) == Err(ConstraintFormat)
    ensures Comparators(Hyphen(l, u)).Ok? ==>
      (C.AllHold(Comparators(Hyphen(l, u)).value, v) <==> V.Compare(StartOf(l), v) <= 0 && UpTo(u, v))
  {
    HyphenForm(l, u);
    var s := StartOf(l);
    var e := HyphenEndOf(u);
    BelowHyphenEnd(u, s);
    BelowHyphenEnd(u, v);
    C.ComparatorsMeanRange(C.RangePredicate(Some(s), Some(e)), v);
  }

  /** "=v", "v" and ">=v" test equality with and the lower bound of the descriptor's version. */
  lemma {:induction false} EqualOrAtLeastMeaning(d: D.Descriptor, op: Option<O.Op>, v: V.Version)
    requires Numeric(d) && V.WellFormed(v)
    requires op.None? || op == Some(O.Equal) || op == Some(O.GreaterThanOrEqual)
    ensures OperatorComparators(d, op).Ok?
    ensures op != Some(O.GreaterThanOrEqual) ==> (C.AllHold(OperatorComparators(d, op).value, v) <==> V.Compare(v, StartOf(d)) == 0)
    ensures op == Some(O.GreaterThanOrEqual) ==> (C.AllHold(OperatorComparators(d, op).value, v) <==> V.Compare(v, StartOf(d)) >= 0)
  {
    NumericFacts(d);
    var cs := OperatorComparators(d, op).value;
    assert cs == [C.Comparator(ComparatorOp(op), StartOf(d))];
    assert C.AllHold(cs, v) <==> C.Holds(cs[0], v);
  }

  /** "<=v" accepts exactly the versions at most the descriptor's version. */
  lemma {:induction false} AtMostMeaning(d: D.Descriptor, v: V.Version)
    requires Numeric(d) && V.WellFormed(v)
    ensures OperatorComparators(d, Some(O.LessThanOrEqual)).Ok?
    ensures C.AllHold(OperatorComparators(d, Some(O.LessThanOrEqual)).value, v) <==> V.Compare(v, StartOf(d)) <= 0
  {
    NumericFacts(d);
    var cs := OperatorComparators(d, Some(O.LessThanOrEqual)).value;
    assert cs == [C.Comparator(C.LT, V.SmallestLarger(StartOf(d)))];
    assert C.AllHold(cs, v) <==> C.Holds(cs[0], v);
    V.SmallestLargerIsSuccessor(StartOf(d), v);
  }

  /** The reference a "<v" predicate stays below: the least version with the descriptor's numbers for a partial descriptor. */
  function BelowReference(d: D.Descriptor): V.Version
    requires Numeric(d)
  {
    if D.Minor(d).None? || D.Patch(d).None? then LeastWith((StartOf(d).major, StartOf(d).minor, StartOf(d).patch))
    else StartOf(d)
  }

  /** The comparator a "<v" predicate on a numeric descriptor is made of. */
  lemma {:induction false} BelowForm(d: D.Descriptor)
    requires Numeric(d)
    ensures OperatorComparators(d, Some(O.LessThan)) == Ok([C.Comparator(C.LT, BelowReference(d))])
  {
    NumericFacts(d);
    var s := StartOf(d);
    if D.Minor(d).None? || D.Patch(d).None? {
      V.CreateZeroPreRelease(s.major, s.minor, s.patch);
    }
  }

  /**
   * "<v" on a full descriptor accepts the versions below it; on a partial one it accepts those
   * whose numbers come before, so "<1.2" also shuts out the pre-releases of 1.2.0.
   */
  lemma {:induction false} BelowMeaning(d: D.Descriptor, v: V.Version)
    requires Numeric(d) && V.WellFormed(v)
    ensures OperatorComparators(d, Some(O.LessThan)).Ok?
    ensures C.AllHold(OperatorComparators(d, Some(O.LessThan)).value, v)
      <==> if D.Minor(d).Some? && D.Patch(d).Some? then V.Compare(v, StartOf(d)) < 0
           else V.NumbersBefore(v, StartOf(d).major, StartOf(d).minor, StartOf(d).patch)
  {
    BelowForm(d);
    var r := BelowReference(d);
    var cs := [C.Comparator(C.LT, r)];
    assert C.AllHold(cs, v) <==> C.Holds(cs[0], v);
    if D.Minor(d).None? || D.Patch(d).None? {
      V.BelowZeroPreRelease(v, r.major, r.minor, r.patch);
    }
  }

  /** A version at or above `major.minor.patch-0` is one whose numbers do not come before. */
  lemma {:induction false} AtLeastZeroPre(v: V.Version, major: nat, minor: nat, patch: nat)
    requires V.WellFormed(v)
    ensures C.AllHold([C.Comparator(C.GTE, V.Version(major, minor, patch, Some(PR.Min), None))], v)
      <==> !V.NumbersBefore(v, major, minor, patch)
  {
    var cs := [C.Comparator(C.GTE, V.Version(major, minor, patch, Some(PR.Min), None))];
    assert C.AllHold(cs, v) <==> C.Holds(cs[0], v);
    V.BelowZeroPreRelease(v, major, minor, patch);
  }

  /** The reference a ">v" predicate starts from: past the last component given, or the version itself for a full pre-release. */
  function AboveReference(d: D.Descriptor): V.Version
    requires Numeric(d)
  {
    if D.Minor(d).None? then LeastWith((D.Major(d).value + 1, 0, 0))
    else if D.Patch(d).None? then LeastWith((D.Major(d).value, D.Minor(d).value + 1, 0))
    else if d.preRelease.None? then LeastWith((D.Major(d).value, D.Minor(d).value, D.Patch(d).value + 1))
    else StartOf(d)
  }

  /** The comparator a ">v" predicate on a numeric descriptor is made of. */
  lemma {:induction false} AboveForm(d: D.Descriptor)
    requires Numeric(d)
    ensures OperatorComparators(d, Some(O.GreaterThan)) == Ok([C.Comparator(C.GTE, AboveReference(d))])
  {
    NumericFacts(d);
    var s := StartOf(d);
    if D.Minor(d).None? {
      V.CreateZeroPreRelease(s.major + 1, 0, 0);
    } else if D.Patch(d).None? {
      V.CreateZeroPreRelease(s.major, s.minor + 1, 0);
    } else if d.preRelease.None? {
      V.CreateZeroPreRelease(s.major, s.minor, s.patch + 1);
    }
  }

  /**
   * ">v" accepts the versions above the descriptor's version for a full release descriptor,
   * those with a larger major or minor for a partial one, and for a full pre-release
   * descriptor the versions at or above it, the descriptor's own version included.
   */
  lemma {:induction false} AboveMeaning(d: D.Descriptor, v: V.Version)
    requires Numeric(d) && V.WellFormed(v)
    ensures OperatorComparators(d, Some(O.GreaterThan)).Ok?
    ensures C.AllHold(OperatorComparators(d, Some(O.GreaterThan)).value, v)
      <==> if D.Minor(d).None? then v.major > D.Major(d).value
           else if D.Patch(d).None? then v.major > D.Major(d).value || (v.major == D.Major(d).value && v.minor > D.Minor(d).value)
           else if d.preRelease.None? then V.Compare(v, StartOf(d)) > 0
           else V.Compare(v, StartOf(d)) >= 0
  {
    AboveForm(d);
    var r := AboveReference(d);
    var cs := [C.Comparator(C.GTE, r)];
    assert C.AllHold(cs, v) <==> C.Holds(cs[0], v);
    if r.pre == Some(PR.Min) {
      V.BelowZeroPreRelease(v, r.major, r.minor, r.patch);
    }
  }
}
