/**
 * Pre-release identifiers: validation of the dot-separated parts, the SemVer precedence order
 * on part lists, rendering, and the smallest larger pre-release.
 */
module PreReleases {
  import opened Wrappers
  import opened Strings
  import opened Patterns

  /** A validated pre-release: its dot-separated parts. */
  datatype PreRelease = PreRelease(parts: seq<string>)

  /** The least pre-release, the single part "0". */
  const Min: PreRelease := PreRelease(["0"])

  /** The three checks validation applies to a part, in order: any one of them rejects it. */
  predicate PartRejected(p: string) {
    IsBlank(p)
    || (|p| > 0 && AllDigits(p) && |p| > 1 && p[0] == '0')
    || !(|p| > 0 && AllIdentChars(p))
  }

  predicate ValidParts(ps: seq<string>) {
    forall i :: 0 <= i < |ps| ==> !PartRejected(ps[i])
  }

  /** What every constructed pre-release satisfies. */
  predicate Valid(x: PreRelease) {
    |x.parts| > 0 && ValidParts(x.parts)
  }

  /** The parts validation accepts are exactly the pre-release parts of the version grammar. */
  lemma {:induction false} ValidPartIsGrammarPart(p: string)
    ensures !PartRejected(p) <==> IsPreReleasePart(p)
  {
    if |p| > 0 && AllIdentChars(p) {
      assert IsIdentChar(p[0]);
      assert !IsBlank(p);
      if !AllDigits(p) {
        var i :| 0 <= i < |p| && !IsDigit(p[i]);
        assert IsNonNumericId(p);
      }
    }
    if IsNumeral(p) {
      assert IsDigit(p[0]);
    }
  }

  /** Rendering: the parts joined with '.'. */
  function ToString(x: PreRelease): string {
    Join(x.parts, '.')
  }

  /** The trimmed text split at '.'. */
  function PartsOf(s: string): seq<string> {
    Split(Trim(s), '.')
  }

  /**
   * Validation of the text of a pre-release: blank text is rejected, otherwise the trimmed text
   * is split at '.' and every part must pass the checks.
   */
  function Validated(s: string): (r: Result<PreRelease>)
    ensures r.Ok? ==> Valid(r.value) && ToString(r.value) == Trim(s)
    ensures r.Err? ==> r.error == VersionFormat
  {
    if IsBlank(s) then Err(VersionFormat)
    else
      var parts := PartsOf(s);
      if ValidParts(parts) then
        JoinSplit(Trim(s), '.');
        Ok(PreRelease(parts))
      else Err(VersionFormat)
  }

  /** The validation loop: the parts are checked one after another and the first bad one throws. */
  method Validate(s: string) returns (r: Result<PreRelease>)
    ensures r == Validated(s)
  {
    if IsBlank(s) {
      return Err(VersionFormat);
    }
    var parts := PartsOf(s);
    var i := 0;
    while i < |parts|
      invariant i <= |parts|
      invariant forall j :: 0 <= j < i ==> !PartRejected(parts[j])
    {
      if PartRejected(parts[i]) {
        return Err(VersionFormat);
      }
      i := i + 1;
    }
    return Ok(PreRelease(parts));
  }

  /** Validating the rendering of a pre-release gives that pre-release back. */
  lemma {:induction false} ValidatedToString(x: PreRelease)
    requires Valid(x)
    ensures Validated(ToString(x)) == Ok(x)
  {
    var s := ToString(x);
    forall i, k | 0 <= i < |x.parts| && 0 <= k < |x.parts[i]|
      ensures !IsWhitespace(x.parts[i][k]) && x.parts[i][k] != '.'
    {
      assert IsIdentChar(x.parts[i][k]);
    }
    JoinNoWhitespace(x.parts, '.');
    JoinFirst(x.parts, '.');
    assert !IsBlank(s);
    TrimNoWhitespace(s);
    assert forall i :: 0 <= i < |x.parts| ==> '.' !in x.parts[i];
    SplitJoin(x.parts, '.');
  }

  /** The pre-release group of the version grammar passes validation, part for part. */
  lemma {:induction false} ValidatedGrammarText(t: string)
    requires IsPreReleaseText(t)
    ensures Validated(t) == Ok(PreRelease(Split(t, '.')))
  {
    var x := PreRelease(Split(t, '.'));
    forall i | 0 <= i < |x.parts|
      ensures !PartRejected(x.parts[i])
    {
      ValidPartIsGrammarPart(x.parts[i]);
    }
    JoinSplit(t, '.');
    ValidatedToString(x);
  }

  /** The number a part stands for: all ASCII digits whose value fits an `Int`. */
  function NumericValue(p: string): Option<int> {
    if |p| > 0 && AllDigits(p) && DigitsValue(p) <= MaxInt then Some(DigitsValue(p)) else None
  }

  /**
   * Part order, given the numbers the two parts were read as: numeric before non-numeric,
   * numbers by value, other parts by string order.
   */
  function CompareRead(x: Option<int>, y: Option<int>, a: string, b: string): int {
    if x.Some? && y.None? then -1
    else if x.None? && y.Some? then 1
    else if x.Some? && y.Some? then IntCompare(x.value, y.value)
    else StringCompare(a, b)
  }

  /** Part order with the number of a part read by `String.toIntOrNull`, which accepts a sign. */
  function ComparePartAsWritten(a: string, b: string): int {
    CompareRead(ToIntOrNull(a), ToIntOrNull(b), a, b)
  }

  /** Part order with only digit strings read as numbers. */
  function ComparePart(a: string, b: string): int {
    CompareRead(NumericValue(a), NumericValue(b), a, b)
  }

  /**
   * A part such as "-1" or "-0" is alphanumeric, yet `toIntOrNull` reads it as a number: "-1" then
   * sorts below "0", and "-0" compares equal to "0" although the two parts differ.
   */
  lemma {:induction false} HyphenPartsAsWritten()
    ensures !PartRejected("-1") && !PartRejected("-0") && !PartRejected("0")
    ensures ComparePartAsWritten("-1", "0") < 0
    ensures ComparePartAsWritten("-0", "0") == 0 && "-0" != "0"
    ensures ComparePart("-1", "0") > 0 && ComparePart("-0", "0") > 0
  {
    assert !IsWhitespace("-1"[0]) && !IsWhitespace("-0"[0]) && !IsWhitespace("0"[0]);
    assert ToIntOrNull("-1") == Some(-1) by {
      assert AllDigits("-1"[1..]) && "-1"[1..] == "1";
    }
    assert ToIntOrNull("-0") == Some(0) by {
      assert AllDigits("-0"[1..]) && "-0"[1..] == "0";
    }
    assert NumericValue("-1") == None by {
      assert !IsDigit("-1"[0]);
    }
    assert NumericValue("-0") == None by {
      assert !IsDigit("-0"[0]);
    }
  }

  /** On valid parts the two orders differ only where a part starts with a hyphen. */
  lemma {:induction false} AsWrittenAgreesWithoutHyphen(a: string, b: string)
    requires !PartRejected(a) && !PartRejected(b) && a[0] != '-' && b[0] != '-'
    ensures ComparePartAsWritten(a, b) == ComparePart(a, b)
  {
    assert IsIdentChar(a[0]) && IsIdentChar(b[0]);
  }

  /** The corrected part order is what SemVer item 11.4 prescribes. */
  lemma {:induction false} ComparePartFollowsSemVer(a: string, b: string)
    requires !PartRejected(a) && !PartRejected(b)
    ensures AllDigits(a) && DigitsValue(a) <= MaxInt && !AllDigits(b) ==> ComparePart(a, b) < 0
    ensures AllDigits(a) && AllDigits(b) && DigitsValue(a) <= MaxInt && DigitsValue(b) <= MaxInt
      ==> ComparePart(a, b) == IntCompare(DigitsValue(a), DigitsValue(b))
    ensures !AllDigits(a) && !AllDigits(b) ==> ComparePart(a, b) == StringCompare(a, b)
    ensures ComparePart(a, b) == 0 <==> a == b
  {
    ComparePartZero(a, b);
  }

  lemma {:induction false} ComparePartZero(a: string, b: string)
    requires !PartRejected(a) && !PartRejected(b)
    ensures ComparePart(a, b) == 0 <==> a == b
  {
    StringCompareZero(a, b);
    if NumericValue(a).Some? && NumericValue(b).Some? && DigitsValue(a) == DigitsValue(b) {
      NumeralRoundTrip(a);
      NumeralRoundTrip(b);
    }
  }

  lemma {:induction false} ComparePartAntisymmetric(a: string, b: string)
    ensures ComparePart(a, b) == -ComparePart(b, a)
  {
    StringCompareAntisymmetric(a, b);
  }

  lemma {:induction false} ComparePartReflexive(a: string)
    ensures ComparePart(a, a) == 0
  {
    StringCompareZero(a, a);
  }

  /** Parts that compare equal compare alike with every other part. */
  lemma {:induction false} ComparePartSubstitute(a: string, b: string, c: string)
    requires ComparePart(a, b) == 0
    ensures ComparePart(a, c) == ComparePart(b, c) && ComparePart(c, a) == ComparePart(c, b)
  {
    StringCompareZero(a, b);
  }

  lemma {:induction false} ComparePartTransitive(a: string, b: string, c: string)
    requires ComparePart(a, b) < 0 && ComparePart(b, c) < 0
    ensures ComparePart(a, c) < 0
  {
    if NumericValue(a).None? && NumericValue(b).None? && NumericValue(c).None? {
      StringCompareTransitive(a, b, c);
    }
  }

  /** Precedence of part lists: the first differing part decides, else the shorter list is smaller. */
  function CompareParts(a: seq<string>, b: seq<string>): int {
    if |a| == 0 || |b| == 0 then IntCompare(|a|, |b|)
    else
      var c := ComparePart(a[0], b[0]);
      if c != 0 then c else CompareParts(a[1..], b[1..])
  }

  function Compare(x: PreRelease, y: PreRelease): int {
    CompareParts(x.parts, y.parts)
  }

  /** The comparison loop over the common prefix of the two part lists. */
  method CompareTo(x: PreRelease, y: PreRelease) returns (r: int)
    ensures r == Compare(x, y)
  {
    var a, b := x.parts, y.parts;
    var count := if |a| < |b| then |a| else |b|;
    for i := 0 to count
      invariant CompareParts(a, b) == CompareParts(a[i..], b[i..])
    {
      assert a[i..][0] == a[i] && b[i..][0] == b[i];
      assert a[i..][1..] == a[i + 1..] && b[i..][1..] == b[i + 1..];
      var c := ComparePart(a[i], b[i]);
      if c != 0 {
        return c;
      }
    }
    return IntCompare(|a|, |b|);
  }

  lemma {:induction false} ComparePartsAntisymmetric(a: seq<string>, b: seq<string>)
    ensures CompareParts(a, b) == -CompareParts(b, a)
  {
    if |a| > 0 && |b| > 0 {
      ComparePartAntisymmetric(a[0], b[0]);
      ComparePartsAntisymmetric(a[1..], b[1..]);
    }
  }

  lemma {:induction false} ComparePartsReflexive(a: seq<string>)
    ensures CompareParts(a, a) == 0
  {
    if |a| > 0 {
      ComparePartReflexive(a[0]);
      ComparePartsReflexive(a[1..]);
    }
  }

  lemma {:induction false} ComparePartsSubstitute(a: seq<string>, b: seq<string>, c: seq<string>)
    requires CompareParts(a, b) == 0
    ensures CompareParts(a, c) == CompareParts(b, c) && CompareParts(c, a) == CompareParts(c, b)
  {
    if |a| > 0 && |b| > 0 {
      ComparePartSubstitute(a[0], b[0], if |c| > 0 then c[0] else "");
      ComparePartsSubstitute(a[1..], b[1..], if |c| > 0 then c[1..] else []);
    }
  }

  lemma {:induction false} ComparePartsTransitive(a: seq<string>, b: seq<string>, c: seq<string>)
    requires CompareParts(a, b) < 0 && CompareParts(b, c) < 0
    ensures CompareParts(a, c) < 0
  {
    if |a| > 0 && |b| > 0 && |c| > 0 {
      var ab, bc := ComparePart(a[0], b[0]), ComparePart(b[0], c[0]);
      if ab == 0 {
        ComparePartSubstitute(a[0], b[0], c[0]);
        if bc == 0 {
          ComparePartsTransitive(a[1..], b[1..], c[1..]);
        }
      } else if bc == 0 {
        ComparePartSubstitute(b[0], c[0], a[0]);
      } else {
        ComparePartTransitive(a[0], b[0], c[0]);
      }
    }
  }

  /** For validated part lists, comparing equal is being equal, in agreement with `equals`. */
  lemma {:induction false} ComparePartsZero(a: seq<string>, b: seq<string>)
    requires ValidParts(a) && ValidParts(b)
    ensures CompareParts(a, b) == 0 <==> a == b
  {
    if a == b {
      ComparePartsReflexive(a);
    } else if |a| > 0 && |b| > 0 {
      ComparePartZero(a[0], b[0]);
      if a[0] == b[0] {
        ComparePartsZero(a[1..], b[1..]);
      }
    }
  }

  /** Pre-release precedence is a total order on validated pre-releases. */
  lemma {:induction false} CompareIsTotalOrder(x: PreRelease, y: PreRelease, z: PreRelease)
    requires Valid(x) && Valid(y)
    ensures Compare(x, y) == -Compare(y, x)
    ensures Compare(x, y) == 0 <==> x == y
    ensures Compare(x, y) <= 0 && Compare(y, z) <= 0 ==> Compare(x, z) <= 0
  {
    ComparePartsAntisymmetric(x.parts, y.parts);
    ComparePartsZero(x.parts, y.parts);
    if Compare(x, y) < 0 && Compare(y, z) < 0 {
      ComparePartsTransitive(x.parts, y.parts, z.parts);
    } else if Compare(x, y) == 0 {
      ComparePartsSubstitute(x.parts, y.parts, z.parts);
    } else if Compare(y, z) == 0 {
      ComparePartsSubstitute(y.parts, z.parts, x.parts);
    }
  }

  /** The next pre-release in precedence: the parts with a "0" part appended. */
  function SmallestLarger(x: PreRelease): PreRelease {
    PreRelease(x.parts + ["0"])
  }

  lemma {:induction false} AppendZeroGreater(a: seq<string>)
    ensures CompareParts(a, a + ["0"]) < 0
  {
    if |a| > 0 {
      ComparePartReflexive(a[0]);
      assert (a + ["0"])[1..] == a[1..] + ["0"];
      AppendZeroGreater(a[1..]);
    }
  }

  /** "0" is the least valid part, and the only valid part equal to it. */
  lemma {:induction false} ZeroIsLeastPart(p: string)
    requires !PartRejected(p)
    ensures ComparePart(p, "0") >= 0
    ensures ComparePart(p, "0") == 0 ==> p == "0"
  {
    assert NumericValue("0") == Some(0);
    ComparePartZero(p, "0");
  }

  lemma {:induction false} AppendZeroIsSuccessor(w: seq<string>, a: seq<string>)
    requires ValidParts(w)
    ensures CompareParts(w, a + ["0"]) < 0 <==> CompareParts(w, a) <= 0
  {
    if |w| > 0 {
      if |a| == 0 {
        assert a + ["0"] == ["0"];
        ZeroIsLeastPart(w[0]);
      } else {
        assert (a + ["0"])[0] == a[0] && (a + ["0"])[1..] == a[1..] + ["0"];
        AppendZeroIsSuccessor(w[1..], a[1..]);
      }
    }
  }

  /** The smallest larger pre-release is greater, and no valid pre-release lies strictly between. */
  lemma {:induction false} SmallestLargerIsSuccessor(x: PreRelease, w: PreRelease)
    requires Valid(w)
    ensures Compare(x, SmallestLarger(x)) < 0
    ensures Compare(w, SmallestLarger(x)) < 0 <==> Compare(w, x) <= 0
  {
    AppendZeroGreater(x.parts);
    AppendZeroIsSuccessor(w.parts, x.parts);
  }

  /** `MIN` precedes or equals every valid pre-release. */
  lemma {:induction false} MinIsLeast(x: PreRelease)
    requires Valid(x)
    ensures Compare(Min, x) <= 0
    ensures Compare(Min, x) == 0 ==> x == Min
  {
    ZeroIsLeastPart(x.parts[0]);
    ComparePartAntisymmetric(x.parts[0], "0");
    if x.parts[0] == "0" {
      ComparePartReflexive("0");
      var zero: seq<string> := ["0"];
      assert zero[1..] == [];
      assert CompareParts(zero, x.parts) == CompareParts([], x.parts[1..]);
      if |x.parts| == 1 {
        assert x.parts == ["0"];
      }
    }
  }
}
