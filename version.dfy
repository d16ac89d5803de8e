/**
 * Semantic versions: construction with its checks, the SemVer precedence order, equality and
 * hashing, rendering, strict and loose parsing, the next-major/minor/patch arithmetic and the
 * smallest larger version.
 */
module Versions {
  import opened Wrappers
  import opened Strings
  import opened Patterns
  import PR = PreReleases

  /** A version: three numbers, an optional pre-release and optional build metadata. */
  datatype Version = Version(major: nat, minor: nat, patch: nat, pre: Option<PR.PreRelease>, build: Option<string>)

  /** A value of Kotlin's `Int`. */
  predicate IsInt(x: int) { MinInt <= x <= MaxInt }

  /** A present pre-release is a validated one; the order lemmas need no more. */
  predicate WellFormed(v: Version) {
    v.pre.Some? ==> PR.Valid(v.pre.value)
  }

  /** What every constructed version satisfies: also its numbers fit an `Int`. */
  predicate Valid(v: Version) {
    WellFormed(v) && v.major <= MaxInt && v.minor <= MaxInt && v.patch <= MaxInt
  }

  /** The version 0.0.0. */
  const Zero: Version := Version(0, 0, 0, None, None)

  /** The least version of all, 0.0.0-0. */
  const Least: Version := Version(0, 0, 0, Some(PR.Min), None)

  /**
   * The public constructor: the pre-release text is validated first, then a negative number is
   * rejected.
   */
  function Create(major: int, minor: int, patch: int, preRelease: Option<string>, build: Option<string>): (r: Result<Version>)
    requires IsInt(major) && IsInt(minor) && IsInt(patch)
    ensures r.Ok? <==> 0 <= major && 0 <= minor && 0 <= patch
                       && (preRelease.Some? ==> PR.Validated(preRelease.value).Ok?)
    ensures r.Ok? ==> Valid(r.value) && r.value.major == major && r.value.minor == minor
                      && r.value.patch == patch && r.value.build == build
    ensures r.Ok? ==> (r.value.pre.Some? <==> preRelease.Some?)
    ensures r.Ok? && preRelease.Some? ==> PR.ToString(r.value.pre.value) == Trim(preRelease.value)
    ensures r.Err? ==> r.error == VersionFormat
  {
    if preRelease.Some? && PR.Validated(preRelease.value).Err? then Err(VersionFormat)
    else if major < 0 || minor < 0 || patch < 0 then Err(VersionFormat)
    else
      var pre := if preRelease.Some? then Some(PR.Validated(preRelease.value).value) else None;
      Ok(Version(major, minor, patch, pre, build))
  }

  /** The pre-release as text, as the `preRelease` property renders it. */
  function PreText(v: Version): Option<string> {
    if v.pre.Some? then Some(PR.ToString(v.pre.value)) else None
  }

  function IsPreRelease(v: Version): bool { v.pre.Some? }

  function IsStable(v: Version): bool { v.major > 0 && v.pre.None? }

  /** `copy`: the public constructor applied to the given (by default the current) values. */
  function Copy(major: int, minor: int, patch: int, preRelease: Option<string>, build: Option<string>): (r: Result<Version>)
    requires IsInt(major) && IsInt(minor) && IsInt(patch)
    ensures r == Create(major, minor, patch, preRelease, build)
  {
    Create(major, minor, patch, preRelease, build)
  }

  /**
   * Copying a version with new numbers and its own pre-release and build keeps the pre-release
   * and the build and takes the new numbers; a negative number is rejected.
   */
  lemma {:induction false} CopyKeepsOthers(v: Version, major: int, minor: int, patch: int)
    requires Valid(v) && IsInt(major) && IsInt(minor) && IsInt(patch)
    ensures Copy(major, minor, patch, PreText(v), v.build).Ok? <==> 0 <= major && 0 <= minor && 0 <= patch
    ensures Copy(major, minor, patch, PreText(v), v.build).Ok?
            ==> Copy(major, minor, patch, PreText(v), v.build).value == v.(major := major, minor := minor, patch := patch)
  {
    if v.pre.Some? {
      PR.ValidatedToString(v.pre.value);
    }
  }

  /** Copying a version with all of its own values gives the same version back. */
  lemma {:induction false} CopyUnchanged(v: Version)
    requires Valid(v)
    ensures Copy(v.major, v.minor, v.patch, PreText(v), v.build) == Ok(v)
  {
    if v.pre.Some? {
      PR.ValidatedToString(v.pre.value);
    }
  }

  /**
   * `compareTo`: major, minor and patch in turn, then a pre-release sorts before the release,
   * then two pre-releases compare by their own order. Build metadata plays no part.
   */
  function Compare(a: Version, b: Version): int {
    if a.major > b.major then 1
    else if a.major < b.major then -1
    else if a.minor > b.minor then 1
    else if a.minor < b.minor then -1
    else if a.patch > b.patch then 1
    else if a.patch < b.patch then -1
    else if a.pre.Some? && b.pre.None? then -1
    else if a.pre.None? && b.pre.Some? then 1
    else if a.pre.Some? && b.pre.Some? then PR.Compare(a.pre.value, b.pre.value)
    else 0
  }

  /** `equals` is `compareTo(other) == 0`. */
  function Equals(a: Version, b: Version): bool {
    Compare(a, b) == 0
  }

  /** The version with its build metadata dropped: what order and equality look at. */
  function Precedence(v: Version): Version {
    v.(build := None)
  }

  lemma {:induction false} CompareAntisymmetric(a: Version, b: Version)
    requires WellFormed(a) && WellFormed(b)
    ensures Compare(a, b) == -Compare(b, a)
  {
    if a.pre.Some? && b.pre.Some? {
      PR.CompareIsTotalOrder(a.pre.value, b.pre.value, b.pre.value);
    }
  }

  /** Two well-formed versions compare equal exactly when they agree on all but build metadata. */
  lemma {:induction false} CompareZero(a: Version, b: Version)
    requires WellFormed(a) && WellFormed(b)
    ensures Compare(a, b) == 0 <==> Precedence(a) == Precedence(b)
  {
    if a.pre.Some? && b.pre.Some? {
      PR.CompareIsTotalOrder(a.pre.value, b.pre.value, b.pre.value);
    }
  }

  lemma {:induction false} CompareTransitive(a: Version, b: Version, c: Version)
    requires WellFormed(a) && WellFormed(b)
    requires Compare(a, b) <= 0 && Compare(b, c) <= 0
    ensures Compare(a, c) <= 0
  {
    if a.major == b.major == c.major && a.minor == b.minor == c.minor && a.patch == b.patch == c.patch
       && a.pre.Some? && b.pre.Some? && c.pre.Some? {
      PR.CompareIsTotalOrder(a.pre.value, b.pre.value, c.pre.value);
    }
  }

  /** Comparison only looks at precedence, so versions equal in it are interchangeable. */
  lemma {:induction false} CompareSubstitute(a: Version, b: Version, c: Version)
    requires WellFormed(a) && WellFormed(b)
    requires Compare(a, b) == 0
    ensures Compare(a, c) == Compare(b, c) && Compare(c, a) == Compare(c, b)
  {
    CompareZero(a, b);
    assert Compare(a, c) == Compare(Precedence(a), c);
    assert Compare(b, c) == Compare(Precedence(b), c);
    assert Compare(c, a) == Compare(c, Precedence(a));
    assert Compare(c, b) == Compare(c, Precedence(b));
  }

  /** `compareTo` is a total preorder whose ties are exactly the versions equal but for build metadata. */
  lemma {:induction false} CompareIsTotalPreorder(a: Version, b: Version, c: Version)
    requires WellFormed(a) && WellFormed(b) && WellFormed(c)
    ensures Compare(a, a) == 0
    ensures Compare(a, b) == -Compare(b, a)
    ensures Compare(a, b) == 0 <==> Precedence(a) == Precedence(b)
    ensures Compare(a, b) <= 0 && Compare(b, c) <= 0 ==> Compare(a, c) <= 0
    ensures Compare(a, b) < 0 && Compare(b, c) <= 0 ==> Compare(a, c) < 0
    ensures Compare(a, b) <= 0 && Compare(b, c) < 0 ==> Compare(a, c) < 0
  {
    CompareZero(a, a);
    CompareAntisymmetric(a, b);
    CompareZero(a, b);
    if Compare(a, b) <= 0 && Compare(b, c) <= 0 {
      CompareTransitive(a, b, c);
      if Compare(a, c) == 0 {
        CompareSubstitute(a, c, b);
        CompareAntisymmetric(b, c);
      }
    }
  }

  /** Build metadata never changes the order, the equality or the hash of a version. */
  lemma {:induction false} BuildMetadataIgnored(a: Version, b: Version, build: Option<string>)
    ensures Compare(a.(build := build), b) == Compare(a, b)
    ensures Compare(b, a.(build := build)) == Compare(b, a)
    ensures Equals(a.(build := build), a)
    ensures Hash(a.(build := build)) == Hash(a)
  {
    if a.pre.Some? {
      PR.ComparePartsReflexive(a.pre.value.parts);
    }
    HashIgnoresBuild(a, build);
  }

  lemma {:induction false} HashIgnoresBuild(a: Version, build: Option<string>)
    ensures Hash(a.(build := build)) == Hash(a)
  {
    var b := a.(build := build);
    assert b.major == a.major && b.minor == a.minor && b.patch == a.patch && b.pre == a.pre;
  }

  /** `hashCode`: major, then multiplied by 31 + minor, by 31 + patch and by 31 + the pre-release hash. */
  function Hash(v: Version): int {
    var h0 := Wrap32(v.major);
    var h1 := Wrap32(h0 * Wrap32(31 + Wrap32(v.minor)));
    var h2 := Wrap32(h1 * Wrap32(31 + Wrap32(v.patch)));
    Wrap32(h2 * (if v.pre.Some? then Wrap32(31 + StringHash(PR.ToString(v.pre.value))) else 1))
  }

  /** Equal versions have equal hashes. */
  lemma {:induction false} EqualVersionsHashAlike(a: Version, b: Version)
    requires WellFormed(a) && WellFormed(b)
    requires Equals(a, b)
    ensures Hash(a) == Hash(b)
  {
    CompareZero(a, b);
    assert Hash(a) == Hash(Precedence(a));
    assert Hash(b) == Hash(Precedence(b));
  }

  /** A nullable version whose value, when present, is well-formed. */
  predicate OptWellFormed(a: Option<Version>) {
    a.Some? ==> WellFormed(a.value)
  }

  /** Kotlin's `==` on nullable versions: both null, or both present and equal. */
  function OptEquals(a: Option<Version>, b: Option<Version>): bool {
    if a.Some? && b.Some? then Equals(a.value, b.value) else a.None? && b.None?
  }

  /** `hashCode()` on a nullable version: 0 for null. */
  function OptHash(a: Option<Version>): int {
    if a.Some? then Hash(a.value) else 0
  }

  /** Equality on nullable well-formed versions is an equivalence, and equal ones hash alike. */
  lemma {:induction false} OptEqualsIsEquivalence(a: Option<Version>, b: Option<Version>, c: Option<Version>)
    requires OptWellFormed(a) && OptWellFormed(b) && OptWellFormed(c)
    ensures OptEquals(a, a)
    ensures OptEquals(a, b) ==> OptEquals(b, a) && OptHash(a) == OptHash(b)
    ensures OptEquals(a, b) && OptEquals(b, c) ==> OptEquals(a, c)
  {
    if a.Some? {
      CompareZero(a.value, a.value);
      if b.Some? {
        CompareAntisymmetric(a.value, b.value);
        if OptEquals(a, b) {
          EqualVersionsHashAlike(a.value, b.value);
        }
        if c.Some? && OptEquals(a, b) && OptEquals(b, c) {
          CompareIsTotalPreorder(a.value, b.value, c.value);
        }
      }
    }
  }

  /** `toString`: "M.m.p", then "-pre" if there is one, then "+build" if there is one. */
  function ToString(v: Version): string {
    NatToString(v.major) + "." + NatToString(v.minor) + "." + NatToString(v.patch)
    + SuffixText(PreText(v), v.build)
  }

  /** The numbers of the core group of a match, when they fit an `Int`. */
  function CoreNumber(core: seq<string>, i: nat): Option<int> {
    if i < |core| then ToIntOrNull(core[i]) else None
  }

  /**
   * `parse`: the text must match the strict or the loose pattern; strict mode then needs all
   * three numbers to fit an `Int`, loose mode only the major one, and turns a missing or
   * overflowing minor or patch into 0.
   */
  function Parse(s: string, strict: bool): (r: Result<Version>)
    ensures r.Ok? ==> Valid(r.value) && Match(s, strict).Some?
    ensures r.Err? ==> r.error == VersionFormat
  {
    match Match(s, strict)
    case None => Err(VersionFormat)
    case Some(m) => FromGroups(m, strict)
  }

  /** The version the groups of a match stand for, read as `parse` reads them. */
  function FromGroups(m: VersionMatch, strict: bool): (r: Result<Version>)
    ensures r.Ok? ==> Valid(r.value)
    ensures r.Err? ==> r.error == VersionFormat
  {
    var major := CoreNumber(m.core, 0);
    var minor := CoreNumber(m.core, 1);
    var patch := CoreNumber(m.core, 2);
    if strict && major.Some? && minor.Some? && patch.Some? then
      Create(major.value, minor.value, patch.value, m.pre, m.build)
    else if !strict && major.Some? then
      Create(major.value, if minor.Some? then minor.value else 0, if patch.Some? then patch.value else 0, m.pre, m.build)
    else Err(VersionFormat)
  }

  /** `tryParse`: null exactly where `parse` raises. */
  function TryParse(s: string, strict: bool): (r: Option<Version>)
    ensures r.Some? <==> Parse(s, strict).Ok?
    ensures r.Some? ==> Valid(r.value) && r.value == Parse(s, strict).value
  {
    match Parse(s, strict)
    case Ok(v) => Some(v)
    case Err(_) => None
  }

  /** A pre-release group has no whitespace, so validating it keeps it as it is. */
  lemma {:induction false} PreReleaseTextRenders(t: string)
    requires IsPreReleaseText(t)
    ensures PR.Validated(t).Ok? && PR.ToString(PR.Validated(t).value) == t
  {
    PR.ValidatedGrammarText(t);
    JoinSplit(t, '.');
  }

  lemma {:induction false} JoinThree(a: string, b: string, c: string)
    ensures Join([a, b, c], '.') == a + "." + b + "." + c
  {
    var parts := [a, b, c];
    assert parts[1..] == [b, c];
    assert parts[1..][1..] == [c];
    assert Join([c], '.') == c;
    assert Join([b, c], '.') == b + "." + c;
  }

  /** A numeral within `Int` reads back as its value and renders as itself. */
  lemma {:induction false} NumeralReads(s: string)
    requires IsNumeral(s)
    ensures ToIntOrNull(s) == if DigitsValue(s) <= MaxInt then Some(DigitsValue(s)) else None
    ensures NatToString(DigitsValue(s)) == s
  {
    NumeralRoundTrip(s);
  }

  /**
   * A strict match is accepted exactly when its three numbers fit an `Int`, and the version read
   * renders as the text it was read from.
   */
  lemma {:induction false} StrictParse(m: VersionMatch)
    requires Patterns.WellFormed(m, true)
    ensures var r := Parse(Render(m), true);
      (r.Ok? <==> DigitsValue(m.core[0]) <= MaxInt && DigitsValue(m.core[1]) <= MaxInt
                  && DigitsValue(m.core[2]) <= MaxInt)
      && (r.Ok? ==> ToString(r.value) == Render(m) && PreText(r.value) == m.pre && r.value.build == m.build)
  {
    MatchComplete(m, true);
    StrictGroups(m);
  }

  lemma {:induction false} StrictGroups(m: VersionMatch)
    requires Patterns.WellFormed(m, true)
    ensures var r := FromGroups(m, true);
      (r.Ok? <==> DigitsValue(m.core[0]) <= MaxInt && DigitsValue(m.core[1]) <= MaxInt
                  && DigitsValue(m.core[2]) <= MaxInt)
      && (r.Ok? ==> ToString(r.value) == Render(m) && PreText(r.value) == m.pre && r.value.build == m.build)
  {
    StrictAccepts(m);
    if FromGroups(m, true).Ok? {
      StrictRendering(m);
    }
  }

  lemma {:induction false} StrictAccepts(m: VersionMatch)
    requires Patterns.WellFormed(m, true)
    ensures FromGroups(m, true).Ok? <==> DigitsValue(m.core[0]) <= MaxInt && DigitsValue(m.core[1]) <= MaxInt
                                         && DigitsValue(m.core[2]) <= MaxInt
  {
    NumeralReads(m.core[0]);
    NumeralReads(m.core[1]);
    NumeralReads(m.core[2]);
    if m.pre.Some? {
      PreReleaseTextRenders(m.pre.value);
    }
  }

  lemma {:induction false} StrictRendering(m: VersionMatch)
    requires Patterns.WellFormed(m, true) && FromGroups(m, true).Ok?
    ensures var v := FromGroups(m, true).value;
      ToString(v) == Render(m) && PreText(v) == m.pre && v.build == m.build
  {
    NumeralReads(m.core[0]);
    NumeralReads(m.core[1]);
    NumeralReads(m.core[2]);
    if m.pre.Some? {
      PreReleaseTextRenders(m.pre.value);
    }
    var v := FromGroups(m, true).value;
    assert PreText(v) == m.pre;
    assert NatToString(v.major) == m.core[0] && NatToString(v.minor) == m.core[1]
           && NatToString(v.patch) == m.core[2];
    assert m.core == [m.core[0], m.core[1], m.core[2]];
    JoinThree(m.core[0], m.core[1], m.core[2]);
  }

  /** Every version a strict parse accepts renders as the text it was parsed from. */
  lemma {:induction false} StrictParseRenders(s: string)
    requires Parse(s, true).Ok?
    ensures ToString(Parse(s, true).value) == s
  {
    var m := Match(s, true).value;
    StrictParse(m);
  }

  /**
   * A loose match is accepted exactly when its major number fits an `Int`; a minor or patch
   * number that is missing or does not fit becomes 0.
   */
  lemma {:induction false} LooseParse(m: VersionMatch)
    requires Patterns.WellFormed(m, false)
    ensures var r := Parse(Render(m), false);
      (r.Ok? <==> DigitsValue(m.core[0]) <= MaxInt)
      && (r.Ok? ==> r.value.major == DigitsValue(m.core[0])
                    && r.value.minor == (if |m.core| > 1 && DigitsValue(m.core[1]) <= MaxInt then DigitsValue(m.core[1]) else 0)
                    && r.value.patch == (if |m.core| > 2 && DigitsValue(m.core[2]) <= MaxInt then DigitsValue(m.core[2]) else 0)
                    && PreText(r.value) == m.pre && r.value.build == m.build)
  {
    MatchComplete(m, false);
    NumeralReads(m.core[0]);
    if |m.core| > 1 {
      NumeralReads(m.core[1]);
    }
    if |m.core| > 2 {
      NumeralReads(m.core[2]);
    }
    if m.pre.Some? {
      PreReleaseTextRenders(m.pre.value);
    }
  }

  /** The groups a version renders to. */
  function MatchOf(v: Version): VersionMatch {
    VersionMatch(false, [NatToString(v.major), NatToString(v.minor), NatToString(v.patch)], PreText(v), v.build)
  }

  /** A valid version whose build metadata follows the grammar parses back from its rendering, in both modes. */
  lemma {:induction false} ParseToString(v: Version, strict: bool)
    requires Valid(v)
    requires v.build.Some? ==> IsBuildText(v.build.value)
    ensures Parse(ToString(v), strict) == Ok(v)
  {
    var m := MatchOf(v);
    MatchOfRenders(v, strict);
    MatchComplete(m, strict);
    FromGroupsOfVersion(v, strict);
  }

  lemma {:induction false} MatchOfRenders(v: Version, strict: bool)
    requires Valid(v)
    requires v.build.Some? ==> IsBuildText(v.build.value)
    ensures Patterns.WellFormed(MatchOf(v), strict) && Render(MatchOf(v)) == ToString(v)
  {
    var m := MatchOf(v);
    if v.pre.Some? {
      var x := v.pre.value;
      forall i | 0 <= i < |x.parts|
        ensures IsPreReleasePart(x.parts[i]) && '.' !in x.parts[i]
      {
        PR.ValidPartIsGrammarPart(x.parts[i]);
        assert forall k :: 0 <= k < |x.parts[i]| ==> IsIdentChar(x.parts[i][k]);
      }
      SplitJoin(x.parts, '.');
    }
    JoinThree(NatToString(v.major), NatToString(v.minor), NatToString(v.patch));
  }

  lemma {:induction false} FromGroupsOfVersion(v: Version, strict: bool)
    requires Valid(v)
    ensures FromGroups(MatchOf(v), strict) == Ok(v)
  {
    var m := MatchOf(v);
    NumeralReads(m.core[0]);
    NumeralReads(m.core[1]);
    NumeralReads(m.core[2]);
    if v.pre.Some? {
      PR.ValidatedToString(v.pre.value);
    }
  }

  /** Kotlin's `Int` increment: wraps from the largest `Int` to the smallest. */
  function IntInc(x: int): (r: int)
    requires IsInt(x)
    ensures IsInt(r)
    ensures x < MaxInt ==> r == x + 1
    ensures x == MaxInt ==> r < 0
  {
    Wrap32(x + 1)
  }

  /** `nextMajor`: (M+1).0.0 with only the given pre-release; a major of the largest `Int` wraps and is rejected. */
  function NextMajor(v: Version, preRelease: Option<string>): (r: Result<Version>)
    requires Valid(v)
    ensures r.Ok? <==> v.major < MaxInt && (preRelease.Some? ==> PR.Validated(preRelease.value).Ok?)
    ensures r.Ok? ==> Valid(r.value) && r.value.major == v.major + 1 && r.value.minor == 0 && r.value.patch == 0
                      && (r.value.pre.Some? <==> preRelease.Some?) && r.value.build.None?
                      && Compare(r.value, v) > 0
    ensures r.Ok? && preRelease.Some?
            ==> r.value.pre == Some(PR.Validated(preRelease.value).value)
                && PR.ToString(r.value.pre.value) == Trim(preRelease.value)
    ensures r.Err? ==> r.error == VersionFormat
  {
    Create(IntInc(v.major), 0, 0, preRelease, None)
  }

  /** `nextMinor`: M.(m+1).0 with only the given pre-release. */
  function NextMinor(v: Version, preRelease: Option<string>): (r: Result<Version>)
    requires Valid(v)
    ensures r.Ok? <==> v.minor < MaxInt && (preRelease.Some? ==> PR.Validated(preRelease.value).Ok?)
    ensures r.Ok? ==> Valid(r.value) && r.value.major == v.major && r.value.minor == v.minor + 1 && r.value.patch == 0
                      && (r.value.pre.Some? <==> preRelease.Some?) && r.value.build.None?
                      && Compare(r.value, v) > 0
    ensures r.Ok? && preRelease.Some?
            ==> r.value.pre == Some(PR.Validated(preRelease.value).value)
                && PR.ToString(r.value.pre.value) == Trim(preRelease.value)
    ensures r.Err? ==> r.error == VersionFormat
  {
    Create(v.major, IntInc(v.minor), 0, preRelease, None)
  }

  /**
   * `nextPatch`: the patch number goes up unless the version is a pre-release and no new
   * pre-release is given, in which case the pre-release is only dropped.
   */
  function NextPatch(v: Version, preRelease: Option<string>): (r: Result<Version>)
    requires Valid(v)
    ensures var bump := v.pre.None? || preRelease.Some?;
      (r.Ok? <==> (bump ==> v.patch < MaxInt) && (preRelease.Some? ==> PR.Validated(preRelease.value).Ok?))
      && (r.Ok? ==> Valid(r.value) && r.value.major == v.major && r.value.minor == v.minor
                    && r.value.patch == (if bump then v.patch + 1 else v.patch)
                    && (r.value.pre.Some? <==> preRelease.Some?) && r.value.build.None?
                    && Compare(r.value, v) > 0)
    ensures r.Ok? && preRelease.Some?
            ==> r.value.pre == Some(PR.Validated(preRelease.value).value)
                && PR.ToString(r.value.pre.value) == Trim(preRelease.value)
    ensures r.Err? ==> r.error == VersionFormat
  {
    Create(v.major, v.minor, if v.pre.None? || preRelease.Some? then IntInc(v.patch) else v.patch, preRelease, None)
  }

  /** `withoutSuffixes`: the version with neither pre-release nor build metadata. */
  function WithoutSuffixes(v: Version): Version {
    Version(v.major, v.minor, v.patch, None, None)
  }

  /**
   * Dropping the suffixes is the copy without them; the result is never below the version, is
   * equal to it exactly for a release, and dropping twice is dropping once.
   */
  lemma {:induction false} WithoutSuffixesProperties(v: Version)
    requires Valid(v)
    ensures Copy(v.major, v.minor, v.patch, None, None) == Ok(WithoutSuffixes(v))
    ensures Compare(v, WithoutSuffixes(v)) <= 0
    ensures Compare(v, WithoutSuffixes(v)) == 0 <==> !IsPreRelease(v)
    ensures WithoutSuffixes(WithoutSuffixes(v)) == WithoutSuffixes(v)
  {
  }

  /** A version is stable exactly when it is a release at or above 1.0.0. */
  lemma {:induction false} StableMeansReleaseFromOne(v: Version)
    ensures IsStable(v) <==> !IsPreRelease(v) && Compare(v, Version(1, 0, 0, None, None)) >= 0
  {
  }

  /**
   * The least version above `v`: for a pre-release, its pre-release with a "0" part appended;
   * for a release, the next patch with pre-release "0". No `Int` bound is applied.
   */
  function SmallestLarger(v: Version): Version {
    if v.pre.Some? then Version(v.major, v.minor, v.patch, Some(PR.SmallestLarger(v.pre.value)), None)
    else Version(v.major, v.minor, v.patch + 1, Some(PR.Min), None)
  }

  lemma {:induction false} ZeroPartValid()
    ensures !PR.PartRejected("0") && PR.Valid(PR.Min)
  {
    var z := "0";
    assert IsIdentChar(z[0]) && !IsWhitespace(z[0]);
  }

  /** Building a version with pre-release text "0" gives the numbers with the least pre-release. */
  lemma {:induction false} CreateZeroPreRelease(major: int, minor: int, patch: int)
    requires 0 <= major <= MaxInt && 0 <= minor <= MaxInt && 0 <= patch <= MaxInt
    ensures Create(major, minor, patch, Some("0"), None) == Ok(Version(major, minor, patch, Some(PR.Min), None))
  {
    ZeroPartValid();
    PR.ValidatedToString(PR.Min);
    assert PR.ToString(PR.Min) == "0";
  }

  /** The numbers of `v` come before `major.minor.patch` in lexicographic order. */
  predicate NumbersBefore(v: Version, major: nat, minor: nat, patch: nat) {
    v.major < major || (v.major == major && (v.minor < minor || (v.minor == minor && v.patch < patch)))
  }

  /**
   * `major.minor.patch-0` is the least version with those numbers: a version lies below it
   * exactly when its own numbers come first.
   */
  lemma {:induction false} BelowZeroPreRelease(v: Version, major: nat, minor: nat, patch: nat)
    requires WellFormed(v)
    ensures Compare(v, Version(major, minor, patch, Some(PR.Min), None)) < 0 <==> NumbersBefore(v, major, minor, patch)
  {
    if v.pre.Some? {
      PR.MinIsLeast(v.pre.value);
      PR.CompareIsTotalOrder(PR.Min, v.pre.value, v.pre.value);
    }
  }

  /** `SmallestLarger(v)` is above `v`, and a well-formed version is below it exactly when it is at most `v`. */
  lemma {:induction false} SmallestLargerIsSuccessor(v: Version, w: Version)
    requires WellFormed(v) && WellFormed(w)
    ensures WellFormed(SmallestLarger(v))
    ensures Compare(v, SmallestLarger(v)) < 0
    ensures Compare(w, SmallestLarger(v)) < 0 <==> Compare(w, v) <= 0
  {
    if v.pre.Some? {
      var x := v.pre.value;
      PR.SmallestLargerIsSuccessor(x, x);
      ZeroPartValid();
      assert PR.Valid(PR.SmallestLarger(x)) by {
        assert PR.SmallestLarger(x).parts == x.parts + ["0"];
      }
      if w.pre.Some? {
        PR.SmallestLargerIsSuccessor(x, w.pre.value);
      }
    } else {
      ZeroPartValid();
      if w.pre.Some? {
        PR.MinIsLeast(w.pre.value);
        PR.CompareIsTotalOrder(PR.Min, w.pre.value, w.pre.value);
      }
    }
  }

  /** 0.0.0-0 is at most every well-formed version, and equal only to 0.0.0-0 itself. */
  lemma {:induction false} LeastIsLeast(v: Version)
    requires WellFormed(v)
    ensures Compare(Least, v) <= 0
    ensures Compare(Least, v) == 0 ==> Precedence(v) == Least
  {
    if v.pre.Some? {
      PR.MinIsLeast(v.pre.value);
    }
  }
}
