/**
 * Maven version descriptors: one to three numbers, with a pre-release only after all three.
 * They are read from text, rendered back, and turned into the version they name or the least
 * version above it.
 */
module MavenDescriptors {
  import opened Wrappers
  import opened Strings
  import opened Patterns
  import PR = PreReleases
  import V = Versions

  datatype Descriptor = Descriptor(majorString: string, minorString: Option<string>, patchString: Option<string>, preRelease: Option<PR.PreRelease>)

  /**
   * What the descriptor pattern sees in a text: the dot-separated numbers before the first '-',
   * and the text after it, if there is one.
   */
  datatype Groups = Groups(core: seq<string>, pre: Option<string>)

  function GroupsOf(s: string): Groups {
    var dash := IndexOfAny(s, {'-'});
    Groups(Split(s[..dash], '.'), if dash < |s| then Some(s[dash + 1..]) else None)
  }

  /** The descriptor pattern matches the whole text: one to three numerals, and a pre-release only after three. */
  predicate Matches(g: Groups) {
    1 <= |g.core| <= 3 && (forall i :: 0 <= i < |g.core| ==> IsNumeral(g.core[i]))
    && (g.pre.Some? ==> |g.core| == 3 && IsPreReleaseText(g.pre.value))
  }

  /**
   * `parseMavenVersionDescriptor`: text the pattern does not match is a format error; otherwise
   * the numbers, and the pre-release validated.
   */
  function Parse(source: string): (r: Result<Descriptor>)
    ensures r.Err? ==> r.error == ConstraintFormat || r.error == VersionFormat
  {
    var g := GroupsOf(source);
    if !Matches(g) then Err(ConstraintFormat)
    else
      var pre :- if g.pre.Some? then
          var x :- PR.Validated(g.pre.value); Ok(Some(x))
        else Ok(None);
      Ok(Descriptor(g.core[0], if |g.core| >= 2 then Some(g.core[1]) else None,
                    if |g.core| == 3 then Some(g.core[2]) else None, pre))
  }

  /** `toString`: the major, ".minor" if present, ".patch" only after a minor, "-pre-release" only after a patch. */
  function ToString(d: Descriptor): string {
    d.majorString
    + if d.minorString.None? then ""
      else "." + d.minorString.value
           + if d.patchString.None? then ""
             else "." + d.patchString.value + if d.preRelease.None? then "" else "-" + PR.ToString(d.preRelease.value)
  }

  /** The descriptors the pattern can produce: numerals, components only after those before them, a validated pre-release. */
  predicate WellFormed(d: Descriptor) {
    IsNumeral(d.majorString)
    && (d.minorString.Some? ==> IsNumeral(d.minorString.value))
    && (d.patchString.Some? ==> d.minorString.Some? && IsNumeral(d.patchString.value))
    && (d.preRelease.Some? ==> d.patchString.Some? && PR.Valid(d.preRelease.value))
  }

  /** The number parts of a rendering, joined with '.'. */
  function CoreParts(d: Descriptor): seq<string> {
    [d.majorString]
    + (if d.minorString.Some? then [d.minorString.value] else [])
    + (if d.minorString.Some? && d.patchString.Some? then [d.patchString.value] else [])
  }

  /** A numeral holds neither '-' nor '.'. */
  lemma {:induction false} NumeralPlain(s: string)
    requires IsNumeral(s)
    ensures '-' !in s && '.' !in s
  {
    forall k | 0 <= k < |s|
      ensures s[k] != '-' && s[k] != '.'
    {
      assert IsDigit(s[k]);
    }
  }

  /** The rendering is the number parts joined with '.', then the pre-release after a '-'. */
  lemma {:induction false} RenderingShape(d: Descriptor)
    ensures ToString(d) == Join(CoreParts(d), '.') + (if d.minorString.Some? && d.patchString.Some? && d.preRelease.Some? then "-" + PR.ToString(d.preRelease.value) else "")
  {
    var mj := d.majorString;
    if d.minorString.Some? {
      var mn := d.minorString.value;
      if d.patchString.Some? {
        var pt := d.patchString.value;
        assert CoreParts(d) == [mj, mn, pt];
        assert Join([mn, pt], '.') == mn + "." + pt by {
          assert Join([pt], '.') == pt;
        }
      } else {
        assert CoreParts(d) == [mj, mn];
        assert Join([mn], '.') == mn;
      }
    } else {
      assert CoreParts(d) == [mj];
    }
  }

  /** The number parts of a well-formed descriptor are numerals, without '-' or '.'. */
  lemma {:induction false} CorePartsPlain(d: Descriptor)
    requires WellFormed(d)
    ensures forall i :: 0 <= i < |CoreParts(d)| ==> IsNumeral(CoreParts(d)[i]) && '-' !in CoreParts(d)[i] && '.' !in CoreParts(d)[i]
    ensures 1 <= |CoreParts(d)| <= 3 && (d.preRelease.Some? ==> |CoreParts(d)| == 3)
  {
    var core := CoreParts(d);
    forall i | 0 <= i < |core|
      ensures IsNumeral(core[i]) && '-' !in core[i] && '.' !in core[i]
    {
      NumeralPlain(core[i]);
    }
  }

  /** The text of a validated pre-release is pre-release grammar text. */
  lemma {:induction false} PreReleaseIsGrammarText(x: PR.PreRelease)
    requires PR.Valid(x)
    ensures IsPreReleaseText(PR.ToString(x))
  {
    forall i | 0 <= i < |x.parts|
      ensures '.' !in x.parts[i]
    {
      var p := x.parts[i];
      forall k | 0 <= k < |p|
        ensures p[k] != '.'
      {
        assert IsIdentChar(p[k]);
      }
    }
    SplitJoin(x.parts, '.');
    forall i | 0 <= i < |x.parts|
      ensures IsPreReleasePart(x.parts[i])
    {
      PR.ValidPartIsGrammarPart(x.parts[i]);
    }
  }

  /** The pattern sees a rendered descriptor as its number parts and its pre-release text. */
  lemma {:induction false} GroupsOfRendering(d: Descriptor)
    requires WellFormed(d)
    ensures GroupsOf(ToString(d)) == Groups(CoreParts(d), if d.preRelease.Some? then Some(PR.ToString(d.preRelease.value)) else None)
  {
    RenderingShape(d);
    CorePartsPlain(d);
    var core := CoreParts(d);
    var coreText := Join(core, '.');
    JoinNoChar(core, '.', '-');
    SplitJoin(core, '.');
    var s := ToString(d);
    var tail := if d.preRelease.Some? then "-" + PR.ToString(d.preRelease.value) else "";
    assert s == coreText + tail;
    IndexOfAnyAfter(coreText, tail, {'-'});
    assert s[..|coreText|] == coreText;
    if d.preRelease.Some? {
      assert s[|coreText| + 1..] == PR.ToString(d.preRelease.value);
    }
  }

  /** Reading a rendered descriptor gives the descriptor back. */
  lemma {:induction false} ParseToString(d: Descriptor)
    requires WellFormed(d)
    ensures Parse(ToString(d)) == Ok(d)
  {
    GroupsOfRendering(d);
    CorePartsPlain(d);
    if d.preRelease.Some? {
      PreReleaseIsGrammarText(d.preRelease.value);
      PR.ValidatedToString(d.preRelease.value);
    }
    var g := GroupsOf(ToString(d));
    assert Matches(g);
  }

  /** The fields of a descriptor read from text are the groups the pattern sees in it. */
  lemma {:induction false} ParsedFields(s: string)
    requires Parse(s).Ok?
    ensures Matches(GroupsOf(s)) && CoreParts(Parse(s).value) == GroupsOf(s).core
    ensures Parse(s).value.preRelease.Some? <==> GroupsOf(s).pre.Some?
    ensures GroupsOf(s).pre.Some? ==> Parse(s).value.preRelease == Some(PR.Validated(GroupsOf(s).pre.value).value)
  {
    var g := GroupsOf(s);
    var d := Parse(s).value;
    assert d.majorString == g.core[0];
    if |g.core| == 1 {
      assert CoreParts(d) == [g.core[0]];
    } else if |g.core| == 2 {
      assert CoreParts(d) == [g.core[0], g.core[1]];
    } else {
      assert CoreParts(d) == [g.core[0], g.core[1], g.core[2]];
    }
  }

  /** A text is its number groups joined with '.', then its pre-release group after a '-'. */
  lemma {:induction false} GroupsText(s: string)
    ensures s == Join(GroupsOf(s).core, '.') + (if GroupsOf(s).pre.Some? then "-" + GroupsOf(s).pre.value else "")
  {
    var dash := IndexOfAny(s, {'-'});
    IndexOfAnyMeaning(s, {'-'});
    JoinSplit(s[..dash], '.');
    if dash < |s| {
      assert s == s[..dash] + "-" + s[dash + 1..];
    } else {
      assert s[..dash] == s;
    }
  }

  /** Whatever reads successfully is well formed and renders as the text it was read from. */
  lemma {:induction false} ToStringParse(s: string)
    requires Parse(s).Ok?
    ensures WellFormed(Parse(s).value)
    ensures ToString(Parse(s).value) == s
  {
    var g := GroupsOf(s);
    var d := Parse(s).value;
    GroupsText(s);
    ParsedFields(s);
    if g.pre.Some? {
      PR.ValidatedGrammarText(g.pre.value);
      JoinSplit(g.pre.value, '.');
    }
    RenderingShape(d);
  }

  /** Text made of identifier characters and '.' only: what a rendered descriptor consists of. */
  predicate PlainChars(s: string) {
    forall k :: 0 <= k < |s| ==> IsIdentChar(s[k]) || s[k] == '.'
  }

  lemma {:induction false} PlainConcat(a: string, b: string)
    requires PlainChars(a) && PlainChars(b)
    ensures PlainChars(a + b)
  {
    forall k | 0 <= k < |a + b|
      ensures IsIdentChar((a + b)[k]) || (a + b)[k] == '.'
    {
      if k >= |a| {
        assert (a + b)[k] == b[k - |a|];
      }
    }
  }

  /** Identifier parts joined with '.' are plain text. */
  lemma {:induction false} JoinPlain(parts: seq<string>)
    requires forall i :: 0 <= i < |parts| ==> AllIdentChars(parts[i])
    ensures PlainChars(Join(parts, '.'))
  {
    if |parts| == 1 {
      assert PlainChars(parts[0]);
    } else if |parts| > 1 {
      JoinPlain(parts[1..]);
      assert PlainChars(parts[0]);
      PlainConcat(parts[0], ".");
      PlainConcat(parts[0] + ".", Join(parts[1..], '.'));
    }
  }

  /**
   * A rendered descriptor is non-empty text of identifier characters and '.', so it holds no
   * whitespace, no comma and no bracket.
   */
  lemma {:induction false} RenderedChars(d: Descriptor)
    requires WellFormed(d)
    ensures PlainChars(ToString(d)) && |ToString(d)| > 0
  {
    RenderingShape(d);
    var core := CoreParts(d);
    forall i | 0 <= i < |core|
      ensures AllIdentChars(core[i])
    {
      assert IsNumeral(core[i]);
      assert AllDigits(core[i]);
    }
    JoinPlain(core);
    JoinFirst(core, '.');
    if d.preRelease.Some? {
      var x := d.preRelease.value;
      assert forall i :: 0 <= i < |x.parts| ==> !PR.PartRejected(x.parts[i]);
      JoinPlain(x.parts);
      PlainConcat("-", PR.ToString(x));
      PlainConcat(Join(core, '.'), "-" + PR.ToString(x));
    }
  }

  /** Text that reads as a descriptor holds no comma and no whitespace. */
  lemma {:induction false} ParsedIsPlain(s: string)
    ensures Parse(s).Ok? ==> PlainChars(s) && |s| > 0
  {
    if Parse(s).Ok? {
      ToStringParse(s);
      RenderedChars(Parse(s).value);
    }
  }

  /** Reading a descriptor fails only with a format error: text the pattern matches always validates. */
  lemma {:induction false} ParseFailsOnlyOnFormat(s: string)
    ensures Parse(s).Err? ==> Parse(s).error == ConstraintFormat
  {
    var g := GroupsOf(s);
    if Matches(g) && g.pre.Some? {
      PR.ValidatedGrammarText(g.pre.value);
    }
  }

  /** A pre-release without all three numbers, as in "1.2-alpha", is not a descriptor. */
  lemma {:induction false} PreReleaseNeedsPatch(s: string)
    requires Parse(s).Ok? && Parse(s).value.preRelease.Some?
    ensures Parse(s).value.patchString.Some? && Parse(s).value.minorString.Some?
  {
  }

  /** `major`: `toInt`, which fails on a numeral too large for an `Int`. */
  function MajorValue(d: Descriptor): (r: Result<int>)
    ensures r.Ok? ==> V.IsInt(r.value)
  {
    var m := ToIntOrNull(d.majorString);
    if m.Some? then Ok(m.value) else Err(NumberFormat)
  }

  /** `minor` and `patch`: `toIntOrNull`, null when absent or too large. */
  function Minor(d: Descriptor): Option<int> {
    if d.minorString.Some? then ToIntOrNull(d.minorString.value) else None
  }

  function Patch(d: Descriptor): Option<int> {
    if d.patchString.Some? then ToIntOrNull(d.patchString.value) else None
  }

  function OrZero(x: Option<int>): int {
    if x.Some? then x.value else 0
  }

  /**
   * `toVersion(increment)`: the version of the numbers, absent ones as 0, with the
   * pre-release; with `increment`, the least version above it.
   */
  function ToVersion(d: Descriptor, increment: bool): (r: Result<V.Version>)
    ensures r.Ok? ==> V.WellFormed(r.value)
  {
    var major :- MajorValue(d);
    var v :- V.Create(major, OrZero(Minor(d)), OrZero(Patch(d)), if d.preRelease.Some? then Some(PR.ToString(d.preRelease.value)) else None, None);
    if increment then
      V.SmallestLargerIsSuccessor(v, v);
      Ok(V.SmallestLarger(v))
    else Ok(v)
  }

  /** The nullable variant: no descriptor, no version. */
  function OptToVersion(d: Option<Descriptor>, increment: bool): Result<Option<V.Version>> {
    if d.None? then Ok(None)
    else
      var v :- ToVersion(d.value, increment);
      Ok(Some(v))
  }

  /** Whether every number of a well-formed descriptor fits an `Int`. */
  predicate Fits(d: Descriptor) {
    WellFormed(d) && DigitsValue(d.majorString) <= MaxInt
    && (d.minorString.Some? ==> DigitsValue(d.minorString.value) <= MaxInt)
    && (d.patchString.Some? ==> DigitsValue(d.patchString.value) <= MaxInt)
  }

  /** The version a descriptor names. */
  function VersionOf(d: Descriptor): V.Version
    requires WellFormed(d)
  {
    V.Version(DigitsValue(d.majorString),
              if d.minorString.Some? then DigitsValue(d.minorString.value) else 0,
              if d.patchString.Some? then DigitsValue(d.patchString.value) else 0,
              d.preRelease, None)
  }

  /**
   * A descriptor whose numbers fit gives the version of its numbers, absent ones as 0, and
   * with `increment` the least version above that one.
   */
  lemma {:induction false} ToVersionMeaning(d: Descriptor)
    requires Fits(d)
    ensures ToVersion(d, false) == Ok(VersionOf(d))
    ensures ToVersion(d, true) == Ok(V.SmallestLarger(VersionOf(d)))
  {
    NumeralPlain(d.majorString);
    if d.minorString.Some? {
      NumeralPlain(d.minorString.value);
    }
    if d.patchString.Some? {
      NumeralPlain(d.patchString.value);
    }
    if d.preRelease.Some? {
      PR.ValidatedToString(d.preRelease.value);
    }
  }

  /** A major too large for an `Int` fails with a number format error; a too-large minor silently counts as 0. */
  lemma {:induction false} OversizedNumbers(d: Descriptor)
    requires WellFormed(d)
    ensures DigitsValue(d.majorString) > MaxInt ==> ToVersion(d, false) == Err(NumberFormat)
    ensures Fits(d.(minorString := None, patchString := None, preRelease := None)) && d.minorString.Some?
            && DigitsValue(d.minorString.value) > MaxInt && d.patchString.None?
            ==> ToVersion(d, false) == Ok(V.Version(DigitsValue(d.majorString), 0, 0, None, None))
  {
    NumeralPlain(d.majorString);
    if d.minorString.Some? {
      NumeralPlain(d.minorString.value);
    }
  }
}
