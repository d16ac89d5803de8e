/**
 * NPM version descriptors: "*", or a major component with optional minor, patch and
 * pre-release, where a component may be a wildcard. They are read, turned into versions and
 * rendered.
 */
module NpmDescriptors {
  import opened Wrappers
  import opened Strings
  import PR = PreReleases
  import V = Versions

  datatype Descriptor =
    | Star
    | Regular(majorString: string, minorString: Option<string>, patchString: Option<string>, preRelease: Option<PR.PreRelease>)

  /**
   * What the X-range pattern captures of a descriptor: the major, minor and patch groups (empty
   * when they did not take part) and the pre-release group. The pattern itself is not part of
   * this model.
   */
  datatype XRangeGroups = XRangeGroups(major: string, minor: string, patch: string, preRelease: Option<string>)

  /** A blank group becomes null. */
  function IfBlankNull(s: string): (r: Option<string>)
    ensures r.None? <==> IsBlank(s)
    ensures r.Some? ==> r.value == s
  {
    if IsBlank(s) then None else Some(s)
  }

  /**
   * `parseNpmVersionDescriptor`: "*" is the star descriptor; text the pattern does not match is
   * a format error; otherwise the captured groups, with the pre-release text validated.
   */
  function Parse(source: string, groups: Option<XRangeGroups>): (r: Result<Descriptor>)
    ensures source == "*" ==> r == Ok(Star)
    ensures source != "*" && groups.None? ==> r == Err(ConstraintFormat)
    ensures r.Ok? && r.value.Regular? ==> (groups.Some? && r.value.majorString == groups.value.major
      && (r.value.minorString.None? <==> IsBlank(groups.value.minor))
      && (r.value.patchString.None? <==> IsBlank(groups.value.patch))
      && (r.value.preRelease.Some? <==> groups.value.preRelease.Some?))
    ensures source != "*" && groups.Some?
            ==> (r.Ok? <==> (groups.value.preRelease.Some? ==> PR.Validated(groups.value.preRelease.value).Ok?))
    ensures source != "*" && groups.Some? && r.Err? ==> r.error == VersionFormat
    ensures r.Ok? && r.value.Regular?
            ==> r.value.minorString == IfBlankNull(groups.value.minor)
                && r.value.patchString == IfBlankNull(groups.value.patch)
                && (groups.value.preRelease.Some?
                    ==> r.value.preRelease == Some(PR.Validated(groups.value.preRelease.value).value))
    ensures r.Err? ==> r.error == ConstraintFormat || r.error == VersionFormat
  {
    if source == "*" then Ok(Star)
    else if groups.None? then Err(ConstraintFormat)
    else
      var g := groups.value;
      var pre :- if g.preRelease.Some? then
          var x :- PR.Validated(g.preRelease.value); Ok(Some(x))
        else Ok(None);
      Ok(Regular(g.major, IfBlankNull(g.minor), IfBlankNull(g.patch), pre))
  }

  /** `tryParseNpmVersionDescriptor`: a format error becomes null; an invalid pre-release still throws. */
  function TryParse(source: string, groups: Option<XRangeGroups>): (r: Result<Option<Descriptor>>)
  {
    match Parse(source, groups)
    case Ok(d) => Ok(Some(d))
    case Err(e) => if e == ConstraintFormat then Ok(None) else Err(e)
  }

  /** `tryParse` answers null exactly where `parse` raises a format error, and agrees with it elsewhere. */
  lemma {:induction false} TryParseMeaning(source: string, groups: Option<XRangeGroups>)
    ensures TryParse(source, groups) == Ok(None) <==> Parse(source, groups) == Err(ConstraintFormat)
    ensures forall d :: TryParse(source, groups) == Ok(Some(d)) <==> Parse(source, groups) == Ok(d)
    ensures TryParse(source, groups).Err? <==> Parse(source, groups) == Err(VersionFormat)
  {
  }

  /** The numeric accessors: the `Int` value of a component, null when absent or not a number. */
  function Major(d: Descriptor): Option<int>
    requires d.Regular?
  {
    ToIntOrNull(d.majorString)
  }

  function Minor(d: Descriptor): Option<int>
    requires d.Regular?
  {
    if d.minorString.Some? then ToIntOrNull(d.minorString.value) else None
  }

  function Patch(d: Descriptor): Option<int>
    requires d.Regular?
  {
    if d.patchString.Some? then ToIntOrNull(d.patchString.value) else None
  }

  /** A wildcard or absent component has no numeric value; a numeral within `Int` range has its own. */
  lemma {:induction false} AccessorsMeaning(d: Descriptor)
    requires d.Regular?
    ensures d.majorString in {"x", "X", "*", ""} ==> Major(d).None?
    ensures d.minorString.None? || d.minorString.value in {"x", "X", "*", ""} ==> Minor(d).None?
    ensures d.patchString.None? || d.patchString.value in {"x", "X", "*", ""} ==> Patch(d).None?
    ensures IsNumeral(d.majorString) && DigitsValue(d.majorString) <= MaxInt ==> Major(d) == Some(DigitsValue(d.majorString))
  {
    NumeralIsDigits(d.majorString);
  }

  lemma {:induction false} NumeralIsDigits(s: string)
    ensures IsNumeral(s) ==> AllDigits(s) && |s| > 0
  {
  }

  /** An absent or non-numeric component counts as 0. */
  function OrZero(x: Option<int>): int {
    if x.Some? then x.value else 0
  }

  /**
   * `toVersion`: the star descriptor has none; a regular one becomes the version of its
   * components, absent and wildcard ones as 0, with its pre-release. The version constructor's
   * own checks apply.
   */
  function ToVersion(d: Descriptor): (r: Result<Option<V.Version>>)
    ensures d.Star? <==> r == Ok(None)
    ensures r.Ok? && r.value.Some? ==> V.Valid(r.value.value) && r.value.value.build.None?
    ensures r.Err? ==> r.error == VersionFormat
  {
    match d
    case Star => Ok(None)
    case Regular(_, _, _, pre) =>
      var mj := OrZero(Major(d));
      var mn := OrZero(Minor(d));
      var pt := OrZero(Patch(d));
      if !(V.IsInt(mj) && V.IsInt(mn) && V.IsInt(pt)) then Err(VersionFormat)
      else
        var v :- V.Create(mj, mn, pt, if pre.Some? then Some(PR.ToString(pre.value)) else None, None);
        Ok(Some(v))
  }

  /** The descriptor, or null. */
  function OptToVersion(d: Option<Descriptor>): Result<Option<V.Version>> {
    if d.None? then Ok(None) else ToVersion(d.value)
  }

  /**
   * A regular descriptor with non-negative components and a validated pre-release yields
   * exactly the version of its components, with absent and wildcard ones as 0.
   */
  lemma {:induction false} ToVersionMeaning(d: Descriptor)
    requires d.Regular? && (d.preRelease.Some? ==> PR.Valid(d.preRelease.value))
    requires OrZero(Major(d)) >= 0 && OrZero(Minor(d)) >= 0 && OrZero(Patch(d)) >= 0
    ensures ToVersion(d) == Ok(Some(V.Version(OrZero(Major(d)), OrZero(Minor(d)), OrZero(Patch(d)), d.preRelease, None)))
  {
    if d.preRelease.Some? {
      PR.ValidatedToString(d.preRelease.value);
    }
  }

  /** A negative component, which the pattern never captures, is rejected by the version constructor. */
  lemma {:induction false} ToVersionRejectsNegative(d: Descriptor)
    requires d.Regular? && Major(d) == Some(-1)
    ensures ToVersion(d) == Err(VersionFormat)
  {
  }

  /**
   * `toString`: the major, then ".minor" when there is a minor, ".patch" only after a minor,
   * and "-pre-release" only after a patch.
   */
  function ToString(d: Descriptor): string {
    match d
    case Star => "*"
    case Regular(mj, mn, pt, pre) =>
      mj + if mn.None? then ""
           else "." + mn.value + if pt.None? then ""
                                 else "." + pt.value + if pre.None? then "" else "-" + PR.ToString(pre.value)
  }

  /** What rendering leaves out: components after an absent one do not appear. */
  lemma {:induction false} ToStringDropsUnreachable(d: Descriptor)
    requires d.Regular?
    ensures d.minorString.None? ==> ToString(d) == d.majorString
    ensures d.minorString.Some? && d.patchString.None? ==> ToString(d) == d.majorString + "." + d.minorString.value
    ensures d.minorString.None? ==> ToString(d) == ToString(d.(patchString := None, preRelease := None))
  {
  }

  /** The rendering of a descriptor without a pre-release, spelled out with its separators. */
  lemma {:induction false} RenderedWithDots(mj: string, mn: string, pt: string)
    ensures ToString(Regular(mj, Some(mn), Some(pt), None)) == mj + ['.'] + (mn + ['.'] + pt)
    ensures ToString(Regular(mj, Some(mn), None, None)) == mj + ['.'] + mn
    ensures ToString(Regular(mj, None, None, None)) == mj
  {
  }

  /** Numerals stay apart in the rendering: splitting the text before the pre-release at '.' gives the components back. */
  lemma {:induction false} ToStringComponents(mj: string, mn: string, pt: string)
    requires '.' !in mj && '.' !in mn && '.' !in pt
    ensures Split(ToString(Regular(mj, Some(mn), Some(pt), None)), '.') == [mj, mn, pt]
    ensures Split(ToString(Regular(mj, Some(mn), None, None)), '.') == [mj, mn]
    ensures Split(ToString(Regular(mj, None, None, None)), '.') == [mj]
  {
    RenderedWithDots(mj, mn, pt);
    SplitNoSeparator(mj, '.');
    SplitNoSeparator(mn, '.');
    SplitNoSeparator(pt, '.');
    SplitAfterPiece(mn, '.', pt);
    SplitAfterPiece(mj, '.', mn + ['.'] + pt);
    SplitAfterPiece(mj, '.', mn);
  }
}
