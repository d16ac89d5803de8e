/**
 * The legacy comparators: a condition ("<1.0.0") tests a version against one reference
 * version, and a range combines a start and an end comparator under an operator. Each can
 * render itself and the text of its opposite, the comparator that accepts what it rejects.
 */
module Legacy {
  import opened Wrappers
  import V = Versions

  /** The operators, rendered by their symbols. */
  datatype Op = Equal | NotEqual | LessThan | LessThanOrEqual | GreaterThan | GreaterThanOrEqual

  function Symbol(op: Op): (s: string)
    ensures 1 <= |s| <= 2
    ensures s[0] in "=!<>"
    ensures |s| == 2 <==> op in {NotEqual, LessThanOrEqual, GreaterThanOrEqual}
  {
    match op
    case Equal => "="
    case NotEqual => "!="
    case LessThan => "<"
    case LessThanOrEqual => "<="
    case GreaterThan => ">"
    case GreaterThanOrEqual => ">="
  }

  /** The complementary operator: "=" and "!=", "<" and ">=", "<=" and ">" are each other's. */
  function OppositeOp(op: Op): Op {
    match op
    case Equal => NotEqual
    case NotEqual => Equal
    case LessThan => GreaterThanOrEqual
    case LessThanOrEqual => GreaterThan
    case GreaterThan => LessThanOrEqual
    case GreaterThanOrEqual => LessThan
  }

  /** Whether an operator accepts a candidate whose comparison with the reference is `c`. */
  predicate Accepts(op: Op, c: int) {
    match op
    case Equal => c == 0
    case NotEqual => c != 0
    case LessThan => c < 0
    case LessThanOrEqual => c <= 0
    case GreaterThan => c > 0
    case GreaterThanOrEqual => c >= 0
  }

  /** Each operator's opposite accepts exactly what it rejects, and taking the opposite twice gives it back. */
  lemma {:induction false} OppositeOpIsComplement(op: Op, c: int)
    ensures Accepts(OppositeOp(op), c) <==> !Accepts(op, c)
    ensures OppositeOp(OppositeOp(op)) == op
    ensures OppositeOp(op) != op
  {
  }

  datatype Comparator =
    | Condition(op: Op, version: V.Version)
    | Range(start: Comparator, end: Comparator, rangeOp: Op)

  /**
   * `isSatisfiedBy`: a condition compares the candidate with its version by precedence; a range
   * asks its start and end and combines the answers as its operator says.
   */
  predicate IsSatisfiedBy(c: Comparator, v: V.Version) {
    match c
    case Condition(op, x) => Accepts(op, V.Compare(v, x))
    case Range(s, e, op) =>
      var a := IsSatisfiedBy(s, v);
      var b := IsSatisfiedBy(e, v);
      match op
      case Equal => a && b
      case NotEqual => !a || !b
      case LessThan => !a && b
      case LessThanOrEqual => b
      case GreaterThan => a && !b
      case GreaterThanOrEqual => a
  }

  /** `toString`: a condition is its symbol then its version; a range renders by its own operator. */
  function ToString(c: Comparator): string
    decreases c, 1
  {
    match c
    case Condition(op, x) => Symbol(op) + V.ToString(x)
    case Range(_, _, op) => RenderAs(c, op)
  }

  /** `opposite`: the text of the comparator with the complementary operator. */
  function Opposite(c: Comparator): string
    decreases c, 1
  {
    match c
    case Condition(op, x) => Symbol(OppositeOp(op)) + V.ToString(x)
    case Range(_, _, op) => RenderAs(c, OppositeOp(op))
  }

  /**
   * `toStringByOperator`: both bounds separated by a space, the opposites of both separated by
   * " || ", or one bound or the opposite of the other.
   */
  function RenderAs(r: Comparator, op: Op): string
    requires r.Range?
    decreases r, 0
  {
    match op
    case Equal => ToString(r.start) + " " + ToString(r.end)
    case NotEqual => Opposite(r.start) + " || " + Opposite(r.end)
    case LessThan => Opposite(r.start)
    case LessThanOrEqual => ToString(r.end)
    case GreaterThan => Opposite(r.end)
    case GreaterThanOrEqual => ToString(r.start)
  }

  /** A condition's opposite is the condition with the opposite operator, and accepts exactly what it rejects. */
  lemma {:induction false} ConditionOpposite(op: Op, x: V.Version, v: V.Version)
    ensures Opposite(Condition(op, x)) == ToString(Condition(OppositeOp(op), x))
    ensures IsSatisfiedBy(Condition(OppositeOp(op), x), v) <==> !IsSatisfiedBy(Condition(op, x), v)
  {
    OppositeOpIsComplement(op, V.Compare(v, x));
  }

  /** A range's opposite is the range with the opposite operator. */
  lemma {:induction false} RangeOpposite(s: Comparator, e: Comparator, op: Op)
    ensures Opposite(Range(s, e, op)) == ToString(Range(s, e, OppositeOp(op)))
  {
  }

  /** "!=" on a range rejects exactly what "=" accepts. */
  lemma {:induction false} RangeNotEqualIsComplement(s: Comparator, e: Comparator, v: V.Version)
    ensures IsSatisfiedBy(Range(s, e, NotEqual), v) <==> !IsSatisfiedBy(Range(s, e, Equal), v)
  {
  }

  /** Every version satisfies the start or the end: the case where the six operators pair up as complements. */
  predicate Covers(s: Comparator, e: Comparator, v: V.Version) {
    IsSatisfiedBy(s, v) || IsSatisfiedBy(e, v)
  }

  /**
   * For a version that the start or the end accepts, the range with the opposite operator
   * accepts it exactly when the range rejects it. "=", "!=", "<=" and ">=" need no such premise.
   */
  lemma {:induction false} RangeOppositeIsComplement(s: Comparator, e: Comparator, op: Op, v: V.Version)
    requires op in {LessThan, GreaterThan, GreaterThanOrEqual, LessThanOrEqual} ==> Covers(s, e, v)
    ensures IsSatisfiedBy(Range(s, e, OppositeOp(op)), v) <==> !IsSatisfiedBy(Range(s, e, op), v)
  {
  }

  /** The condition of an atom of text: an operator and a reference version. */
  datatype Atom = Atom(op: Op, version: V.Version)

  function AtomText(a: Atom): string {
    Symbol(a.op) + V.ToString(a.version)
  }

  predicate AtomHolds(a: Atom, v: V.Version) {
    Accepts(a.op, V.Compare(v, a.version))
  }

  function Flip(a: Atom): Atom {
    Atom(OppositeOp(a.op), a.version)
  }

  /** Conditions side by side, separated by spaces: all of them must hold. */
  function Conjunction(atoms: seq<Atom>): string {
    if |atoms| == 0 then ""
    else if |atoms| == 1 then AtomText(atoms[0])
    else AtomText(atoms[0]) + " " + Conjunction(atoms[1..])
  }

  /** Conjunctions separated by " || ": one of them must hold. */
  function Disjunction(alts: seq<seq<Atom>>): string {
    if |alts| == 0 then ""
    else if |alts| == 1 then Conjunction(alts[0])
    else Conjunction(alts[0]) + " || " + Disjunction(alts[1..])
  }

  predicate AllHold(atoms: seq<Atom>, v: V.Version) {
    forall i :: 0 <= i < |atoms| ==> AtomHolds(atoms[i], v)
  }

  predicate AnyHolds(alts: seq<seq<Atom>>, v: V.Version) {
    exists i :: 0 <= i < |alts| && AllHold(alts[i], v)
  }

  /** A comparator is flat when it is a condition, or a range of two conditions. */
  predicate Flat(c: Comparator) {
    c.Condition? || (c.start.Condition? && c.end.Condition?)
  }

  function AtomOf(c: Comparator): Atom
    requires c.Condition?
  {
    Atom(c.op, c.version)
  }

  /** The alternatives the rendering of a flat range under an operator spells out. */
  function ReadingAs(s: Atom, e: Atom, op: Op): seq<seq<Atom>> {
    match op
    case Equal => [[s, e]]
    case NotEqual => [[Flip(s)], [Flip(e)]]
    case LessThan => [[Flip(s)]]
    case LessThanOrEqual => [[e]]
    case GreaterThan => [[Flip(e)]]
    case GreaterThanOrEqual => [[s]]
  }

  /** The alternatives spelled out by `toString` and by `opposite` of a flat comparator. */
  function Reading(c: Comparator): seq<seq<Atom>>
    requires Flat(c)
  {
    if c.Condition? then [[AtomOf(c)]] else ReadingAs(AtomOf(c.start), AtomOf(c.end), c.rangeOp)
  }

  function OppositeReading(c: Comparator): seq<seq<Atom>>
    requires Flat(c)
  {
    if c.Condition? then [[Flip(AtomOf(c))]] else ReadingAs(AtomOf(c.start), AtomOf(c.end), OppositeOp(c.rangeOp))
  }

  /** The texts `toString` and `opposite` produce for a flat comparator are these alternatives, written out. */
  lemma {:induction false} RenderingReads(c: Comparator)
    requires Flat(c)
    ensures ToString(c) == Disjunction(Reading(c))
    ensures Opposite(c) == Disjunction(OppositeReading(c))
  {
    if c.Range? {
      var s, e := AtomOf(c.start), AtomOf(c.end);
      ReadingRenders(s, e, c.rangeOp);
      ReadingRenders(s, e, OppositeOp(c.rangeOp));
    }
  }

  lemma {:induction false} ReadingRenders(s: Atom, e: Atom, op: Op)
    ensures RenderAs(Range(Condition(s.op, s.version), Condition(e.op, e.version), op), op) == Disjunction(ReadingAs(s, e, op))
  {
    match op
    case Equal =>
      assert [s, e][1..] == [e];
      assert Conjunction([s, e]) == AtomText(s) + " " + AtomText(e);
    case NotEqual =>
      assert [[Flip(s)], [Flip(e)]][1..] == [[Flip(e)]];
    case _ =>
  }

  /** The meaning of one or two alternatives of one or two conditions. */
  lemma {:induction false} SmallAlternatives(a: Atom, b: Atom, v: V.Version)
    ensures AllHold([a], v) <==> AtomHolds(a, v)
    ensures AllHold([a, b], v) <==> AtomHolds(a, v) && AtomHolds(b, v)
    ensures AnyHolds([[a]], v) <==> AtomHolds(a, v)
    ensures AnyHolds([[a, b]], v) <==> AtomHolds(a, v) && AtomHolds(b, v)
    ensures AnyHolds([[a], [b]], v) <==> AtomHolds(a, v) || AtomHolds(b, v)
  {
    assert AllHold([a], v) ==> AtomHolds([a][0], v);
    assert AllHold([a, b], v) ==> AtomHolds([a, b][0], v) && AtomHolds([a, b][1], v);
    assert AtomHolds(a, v) ==> AllHold([[a]][0], v);
    assert AtomHolds(a, v) && AtomHolds(b, v) ==> AllHold([[a, b]][0], v);
    assert AtomHolds(a, v) ==> AllHold([[a], [b]][0], v);
    assert AtomHolds(b, v) ==> AllHold([[a], [b]][1], v);
    if AnyHolds([[a], [b]], v) {
      var i :| 0 <= i < 2 && AllHold([[a], [b]][i], v);
      if i == 0 {
        assert AtomHolds([a][0], v);
      } else {
        assert AtomHolds([b][0], v);
      }
    }
  }

  /** A version meets one of the alternatives `toString` spells out exactly when it satisfies the comparator. */
  lemma {:induction false} ReadingMeaning(c: Comparator, v: V.Version)
    requires Flat(c)
    requires c.Range? && c.rangeOp in {LessThan, GreaterThan} ==> Covers(c.start, c.end, v)
    ensures AnyHolds(Reading(c), v) <==> IsSatisfiedBy(c, v)
  {
    if c.Condition? {
      SmallAlternatives(AtomOf(c), AtomOf(c), v);
    } else {
      var s, e := AtomOf(c.start), AtomOf(c.end);
      SmallAlternatives(s, e, v);
      SmallAlternatives(Flip(s), Flip(e), v);
      SmallAlternatives(e, s, v);
      SmallAlternatives(Flip(e), Flip(s), v);
      FlipMeaning(s, v);
      FlipMeaning(e, v);
    }
  }

  /** A version meets one of the alternatives `opposite` spells out exactly when it does not satisfy the comparator. */
  lemma {:induction false} OppositeReadingMeaning(c: Comparator, v: V.Version)
    requires Flat(c)
    requires c.Range? && c.rangeOp in {LessThan, GreaterThan} ==> Covers(c.start, c.end, v)
    ensures AnyHolds(OppositeReading(c), v) <==> !IsSatisfiedBy(c, v)
  {
    if c.Condition? {
      SmallAlternatives(Flip(AtomOf(c)), Flip(AtomOf(c)), v);
      FlipMeaning(AtomOf(c), v);
    } else {
      var s, e := AtomOf(c.start), AtomOf(c.end);
      SmallAlternatives(s, e, v);
      SmallAlternatives(Flip(s), Flip(e), v);
      SmallAlternatives(e, s, v);
      SmallAlternatives(Flip(e), Flip(s), v);
      FlipMeaning(s, v);
      FlipMeaning(e, v);
    }
  }

  /** A flipped atom holds exactly where the atom does not. */
  lemma {:induction false} FlipMeaning(a: Atom, v: V.Version)
    ensures AtomHolds(Flip(a), v) <==> !AtomHolds(a, v)
  {
    OppositeOpIsComplement(a.op, V.Compare(v, a.version));
  }

  /**
   * Without the covering premise the opposite of "<" is not its complement: for start ">2.0.0"
   * and end "<1.0.0", version 1.5.0 satisfies neither the range nor the text of its opposite.
   */
  lemma {:induction false} OppositeNeedsCover()
    ensures var r := Range(Condition(GreaterThan, V.Version(2, 0, 0, None, None)), Condition(LessThan, V.Version(1, 0, 0, None, None)), LessThan);
      var v := V.Version(1, 5, 0, None, None);
      !IsSatisfiedBy(r, v) && !AnyHolds(OppositeReading(r), v)
  {
    var v := V.Version(1, 5, 0, None, None);
    var r := Range(Condition(GreaterThan, V.Version(2, 0, 0, None, None)), Condition(LessThan, V.Version(1, 0, 0, None, None)), LessThan);
    var a := Atom(GreaterThan, V.Version(2, 0, 0, None, None));
    assert OppositeReading(r) == [[a]];
    SmallAlternatives(a, a, v);
  }
}
