# kotlin-semver, modelled in Dafny

This project models the core of kotlin-semver, a Kotlin library for Semantic Versioning 2.0.0.
The library parses and orders versions. It reads version constraints written in the NPM and the
Maven range syntaxes, and it normalizes them into a sorted list of half-open version ranges.
A version satisfies a constraint when a binary search over those ranges finds it. The model also
covers the library's older comparator evaluator, made of conditions and ranges over six
operators.

Each module is one file:

- `Wrappers` (`wrappers.dfy`) holds `Option`, `Result` and the kinds of exception the library
  raises: version format, constraint format, illegal state, index out of bounds, null dereference
  and number format.
- `Strings` (`strings.dfy`) holds the few Kotlin standard-library string operations the code relies
  on: `toIntOrNull`, `split`, `joinToString`, `trim`, `compareTo` and 32-bit `Int` arithmetic.
- `Patterns` (`patterns.dfy`) is the version grammar, written as a recognizer that returns the
  captured groups.
- `PreReleases` (`prerelease.dfy`) covers pre-release validation, the precedence order on
  pre-release parts and the smallest larger pre-release.
- `Versions` (`version.dfy`) covers `SemanticVersion`: its construction checks, precedence order,
  equality and hash, rendering, strict and loose parsing, `nextMajor`, `nextMinor` and
  `nextPatch`, and the smallest larger version.
- `Comparators` (`comparator.dfy`) holds the four comparator kinds (LT, GTE, EQ, NEQ) and the
  `[start, end)` range predicate.
- `VersionRanges` (`range.dfy`) covers the half-open ranges, with their order, overlap test and
  rendering.
- `Conjunctions` (`conjunction.dfy`) and `Normalizer` (`normalize.dfy`) form `toVersionRanges`.
  Each conjunction of predicates becomes ranges: it is dropped on an EQ/NEQ clash or crossing
  bounds, and its range is split around NEQ references. All ranges are then sorted and merged,
  with an empty sentinel range when nothing survives.
- `VersionConstraints` (`constraint.dfy`) is `VersionConstraint`: its construction, equality
  and hash over the normalized ranges, and the binary-search `isSatisfiedBy` with the
  pre-release inclusion rule.
- `NpmOps`, `NpmDescriptors` and `NpmPredicates` are the NPM front end. They cover operators,
  descriptors, and the any, caret, tilde, hyphen, X-range and operator predicates with their
  bound formulas.
- `MavenDescriptors`, `MavenPredicates` and `MavenFormat` are the Maven front end. They cover
  descriptors, exact versions, intervals and soft minimums, and the bracket-and-comma scanner
  with its rendering.
- `NormalForm` (`normal_form.dfy`) proves that the normalized form is unique. From that it
  proves when constraint equality does not depend on the order in which conjunctions, or the
  predicates inside one, are written, and gives a case where it does.
- `Legacy` (`legacy.dfy`) covers the `Condition` and `Range` comparators: satisfaction, opposites
  and rendering.

Pure Kotlin code becomes functions over datatypes. The loops in the source become methods with
`while` and `for` loops, each proved equal to a specification function:

- pre-release validation and comparison;
- the normalizer's collection, splitting and merge loops;
- the binary search of `isSatisfiedBy`;
- the Maven scanner and its `indexOfFirst`.

The source contains no object whose fields change after construction, so the model has no classes.

Where the code and its documentation or tests disagree, the model follows the code, with one
exception. The order of pre-release parts is the corrected one listed under "## Findings": a part
is numeric only when it is made of ASCII digits. As written, the code also treats parts such as
"-1" and "-0" as numbers. `PreReleases.ComparePartAsWritten` models that order, and
`PreReleases.HyphenPartsAsWritten` shows where the two differ. Every member whose contract depends on the version order states it for the corrected
order; "## Left out" names those members. The places where the model does follow the code:

- `~2.4` ends at 3.0.0-0, not 2.5.0-0.
- `^0.0.1` is rejected because its end is not above its start.
- `>1.0.0` starts at 1.0.1-0.
- A NEQ reference equal to a range's end produces an inverted range, and that range is kept.
  `NormalForm.NeqAtEndOrderMatters` shows that constraint equality then depends on the order of
  the conjunctions.
- Two ranges without a start but with different ends make the sort raise an error.
- An unclosed Maven group reads past the end of the text instead of raising a constraint-format
  error.

Three helpers are called on versions and are defined in library files that are not part of this
model: `toSmallestLargerVersion`, `toNextMajor`/`toNextMinor`/`toNextPatch` and
`toNormalVersion`. The model defines them as the library's tests use them:

- A pre-release version's successor gets an extra "0" part.
- A release's successor is the next patch with pre-release "0".
- The `toNext*` helpers agree with `nextMajor`, `nextMinor` and `nextPatch`.
- `toNormalVersion` agrees with `withoutSuffixes`.

## Model

| member | source | states |
|---|---|---|
| PreReleases.ValidPartIsGrammarPart | src/commonMain/kotlin/com/osmerion/kotlin/semver/internal/PreRelease.kt:44-48 | a part survives the three validation checks (not blank, no leading zero on a number, only `[0-9a-zA-Z-]`) exactly when it is a pre-release part of the version grammar |
| PreReleases.Validated | src/commonMain/kotlin/com/osmerion/kotlin/semver/internal/PreRelease.kt:39-55 | blank text fails with a version-format error; an accepted pre-release has at least one part, every part valid, and renders as the trimmed input |
| PreReleases.Validate | src/commonMain/kotlin/com/osmerion/kotlin/semver/internal/PreRelease.kt:42-54 | the validation loop, which stops at the first bad part, returns what `Validated` specifies |
| PreReleases.ValidatedToString | src/commonMain/kotlin/com/osmerion/kotlin/semver/internal/PreRelease.kt:92 | validating the rendering of a valid pre-release gives the same pre-release back |
| PreReleases.ValidatedGrammarText | src/commonMain/kotlin/com/osmerion/kotlin/semver/internal/PreRelease.kt:39-55 | the pre-release group of the version grammar validates to its '.'-separated parts |
| PreReleases.HyphenPartsAsWritten | src/commonMain/kotlin/com/osmerion/kotlin/semver/internal/PreRelease.kt:60-62 | as written, "-1" sorts below "0" and "-0" ties with "0" although both are valid, distinct parts; the corrected order puts both after "0" |
| PreReleases.AsWrittenAgreesWithoutHyphen | src/commonMain/kotlin/com/osmerion/kotlin/semver/internal/PreRelease.kt:60-69 | on valid parts that do not start with '-', the as-written part order and the corrected one agree |
| PreReleases.ComparePartFollowsSemVer | src/commonMain/kotlin/com/osmerion/kotlin/semver/internal/PreRelease.kt:64-69 | numeric parts sort before alphanumeric ones, numbers by value, other parts by ASCII order, and a tie means equal parts (SemVer 2.0.0 item 11.4) |
| PreReleases.ComparePartZero | src/commonMain/kotlin/com/osmerion/kotlin/semver/internal/PreRelease.kt:64-69 | two valid parts compare equal exactly when they are the same text |
| PreReleases.ComparePartAntisymmetric | src/commonMain/kotlin/com/osmerion/kotlin/semver/internal/PreRelease.kt:64-69 | swapping the parts negates their comparison |
| PreReleases.ComparePartSubstitute | src/commonMain/kotlin/com/osmerion/kotlin/semver/internal/PreRelease.kt:64-69 | parts that compare equal compare alike against every other part |
| PreReleases.ComparePartTransitive | src/commonMain/kotlin/com/osmerion/kotlin/semver/internal/PreRelease.kt:64-69 | the part order is transitive |
| PreReleases.CompareTo | src/commonMain/kotlin/com/osmerion/kotlin/semver/internal/PreRelease.kt:72-82 | the loop over the common prefix returns the first non-zero part comparison, else the comparison of the lengths, i.e. `Compare` |
| PreReleases.ComparePartsAntisymmetric | src/commonMain/kotlin/com/osmerion/kotlin/semver/internal/PreRelease.kt:59-83 | swapping the part lists negates their comparison |
| PreReleases.ComparePartsReflexive | src/commonMain/kotlin/com/osmerion/kotlin/semver/internal/PreRelease.kt:59-83 | a part list compares equal to itself |
| PreReleases.ComparePartsSubstitute | src/commonMain/kotlin/com/osmerion/kotlin/semver/internal/PreRelease.kt:59-83 | part lists that compare equal compare alike against every other list |
| PreReleases.ComparePartsTransitive | src/commonMain/kotlin/com/osmerion/kotlin/semver/internal/PreRelease.kt:59-83 | the part-list order is transitive |
| PreReleases.ComparePartsZero | src/commonMain/kotlin/com/osmerion/kotlin/semver/internal/PreRelease.kt:85-89 | on valid part lists `compareTo` returns 0 exactly when `equals` holds (the lists are identical) |
| PreReleases.CompareIsTotalOrder | src/commonMain/kotlin/com/osmerion/kotlin/semver/internal/PreRelease.kt:59-89 | pre-release precedence is a total order on valid pre-releases whose ties are equality |
| PreReleases.AppendZeroGreater | src/commonMain/kotlin/com/osmerion/kotlin/semver/internal/PreRelease.kt:94 | appending a "0" part gives a larger part list |
| PreReleases.ZeroIsLeastPart | src/commonMain/kotlin/com/osmerion/kotlin/semver/internal/PreRelease.kt:34 | "0" is the least valid part and the only one equal to it |
| PreReleases.AppendZeroIsSuccessor | src/commonMain/kotlin/com/osmerion/kotlin/semver/internal/PreRelease.kt:94 | a valid part list lies below `a + ["0"]` exactly when it lies at or below `a` |
| PreReleases.SmallestLargerIsSuccessor | src/commonMain/kotlin/com/osmerion/kotlin/semver/internal/PreRelease.kt:94 | `toSmallestLargerVersion` is greater, and no valid pre-release lies strictly between the two |
| PreReleases.MinIsLeast | src/commonMain/kotlin/com/osmerion/kotlin/semver/internal/PreRelease.kt:34 | `MIN` ("0") precedes or equals every valid pre-release, and equals only itself |
| Patterns.Match | src/commonMain/kotlin/com/osmerion/kotlin/semver/internal/Patterns.kt:72-75 | a match of the strict or loose version pattern is well formed for that grammar and renders back to exactly the matched text |
| Patterns.MatchComplete | src/commonMain/kotlin/com/osmerion/kotlin/semver/internal/Patterns.kt:72-75 | every well-formed match is found again in the text it renders to, so matching is exact |
| Patterns.GroupsRendering | src/commonMain/kotlin/com/osmerion/kotlin/semver/internal/Patterns.kt:72-75 | the candidate groups read off any text (optional "v", core up to the first '-' or '+', pre-release up to the next '+', build) render back to exactly that text, so the groups partition it |
| Patterns.SplitSuffix | src/commonMain/kotlin/com/osmerion/kotlin/semver/internal/Patterns.kt:50-54 | the pre-release and build groups read off the text after the core render back to that text |
| Patterns.SplitSuffixComplete | src/commonMain/kotlin/com/osmerion/kotlin/semver/internal/Patterns.kt:50-54 | reading the suffix text of a pre-release without '+' and a build gives both groups back |
| Patterns.PreReleaseTextHasNoPlus | src/commonMain/kotlin/com/osmerion/kotlin/semver/internal/Patterns.kt:46-50 | pre-release group text never contains '+', so the build group starts at the first '+' |
| Patterns.NumeralsHaveNoSign | src/commonMain/kotlin/com/osmerion/kotlin/semver/internal/Patterns.kt:28 | the numerals of the core contain neither '-' nor '+', so the core ends at the first of them |
| Versions.Create | src/commonMain/kotlin/com/osmerion/kotlin/semver/SemanticVersion.kt:62-76 | the constructor succeeds exactly when the numbers are non-negative and the pre-release text validates; the result has the given numbers, the build metadata, and a pre-release rendering as the trimmed text; failures are version-format errors |
| Versions.CopyKeepsOthers | src/commonMain/kotlin/com/osmerion/kotlin/semver/SemanticVersion.kt:97-103 | copying a valid version with new numbers and its own pre-release and build metadata succeeds exactly when the numbers are non-negative, and changes only the three numbers |
| Versions.CopyUnchanged | src/commonMain/kotlin/com/osmerion/kotlin/semver/SemanticVersion.kt:97-103 | copying a valid version with all its own values gives the same version back |
| Versions.CompareAntisymmetric | src/commonMain/kotlin/com/osmerion/kotlin/semver/SemanticVersion.kt:105-118 | swapping the versions negates the comparison |
| Versions.CompareZero | src/commonMain/kotlin/com/osmerion/kotlin/semver/SemanticVersion.kt:105-118 | two versions compare equal exactly when they agree on everything but build metadata |
| Versions.CompareTransitive | src/commonMain/kotlin/com/osmerion/kotlin/semver/SemanticVersion.kt:105-118 | the version order is transitive |
| Versions.CompareSubstitute | src/commonMain/kotlin/com/osmerion/kotlin/semver/SemanticVersion.kt:105-118 | versions that compare equal compare alike against every third version |
| Versions.CompareIsTotalPreorder | src/commonMain/kotlin/com/osmerion/kotlin/semver/SemanticVersion.kt:105-118 | `compareTo` is a total preorder whose ties are exactly the versions equal but for build metadata (SemVer 2.0.0 item 11) |
| Versions.BuildMetadataIgnored | src/commonMain/kotlin/com/osmerion/kotlin/semver/SemanticVersion.kt:120-135 | changing build metadata changes neither order, nor `equals`, nor `hashCode` (SemVer 2.0.0 item 10) |
| Versions.EqualVersionsHashAlike | src/commonMain/kotlin/com/osmerion/kotlin/semver/SemanticVersion.kt:129-135 | versions that are `equals` have the same `hashCode` |
| Versions.OptEqualsIsEquivalence | src/commonMain/kotlin/com/osmerion/kotlin/semver/SemanticVersion.kt:120-127 | equality on nullable versions is reflexive, symmetric and transitive, and equal ones hash alike |
| Versions.Parse | src/commonMain/kotlin/com/osmerion/kotlin/semver/SemanticVersion.kt:177-194 | an accepted text matches the chosen pattern and gives a valid version; every failure is a version-format error |
| Versions.FromGroups | src/commonMain/kotlin/com/osmerion/kotlin/semver/SemanticVersion.kt:181-193 | the groups of a match give a valid version or a version-format error |
| Versions.TryParse | src/commonMain/kotlin/com/osmerion/kotlin/semver/SemanticVersion.kt:206-211 | `tryParse` is null exactly where `parse` raises and otherwise agrees with it |
| Versions.PreReleaseTextRenders | src/commonMain/kotlin/com/osmerion/kotlin/semver/SemanticVersion.kt:184 | a pre-release group validates and renders as itself |
| Versions.NumeralReads | src/commonMain/kotlin/com/osmerion/kotlin/semver/SemanticVersion.kt:181-183 | a numeral reads as its value when it fits an `Int` (else null) and renders as itself |
| Versions.StrictParse | src/commonMain/kotlin/com/osmerion/kotlin/semver/SemanticVersion.kt:187-189 | a strict match is accepted exactly when its three numbers fit an `Int`, and the version renders back to the text |
| Versions.StrictGroups | src/commonMain/kotlin/com/osmerion/kotlin/semver/SemanticVersion.kt:181-189 | the strict reading of a well-formed match's groups succeeds exactly when all three numbers fit an `Int` |
| Versions.StrictAccepts | src/commonMain/kotlin/com/osmerion/kotlin/semver/SemanticVersion.kt:181-189 | with exactly three numerals, the strict reading succeeds if and only if each of the three numbers is at most the largest `Int` |
| Versions.StrictRendering | src/commonMain/kotlin/com/osmerion/kotlin/semver/SemanticVersion.kt:137-189 | a version read strictly from a well-formed match renders back to the matched text and keeps its pre-release and build text |
| Versions.StrictParseRenders | src/commonMain/kotlin/com/osmerion/kotlin/semver/SemanticVersion.kt:137-139 | every version a strict parse accepts renders as the text it was parsed from |
| Versions.LooseParse | src/commonMain/kotlin/com/osmerion/kotlin/semver/SemanticVersion.kt:190-191 | a loose match is accepted exactly when its major fits an `Int`; a missing or oversized minor or patch becomes 0 |
| Versions.ParseToString | src/commonMain/kotlin/com/osmerion/kotlin/semver/SemanticVersion.kt:137-139 | a valid version with grammatical build metadata parses back from its rendering, in both modes |
| Versions.MatchOfRenders | src/commonMain/kotlin/com/osmerion/kotlin/semver/SemanticVersion.kt:137-139 | the groups of a valid version form a well-formed match that renders as the version's text |
| Versions.FromGroupsOfVersion | src/commonMain/kotlin/com/osmerion/kotlin/semver/SemanticVersion.kt:181-193 | reading the groups of a valid version gives that version back |
| Versions.IntInc | src/commonMain/kotlin/com/osmerion/kotlin/semver/SemanticVersion.kt:233 | Kotlin `Int` increment: one more below the largest `Int`, wraps to a negative number at it |
| Versions.NextMajor | src/commonMain/kotlin/com/osmerion/kotlin/semver/SemanticVersion.kt:232-237 | `nextMajor` succeeds exactly when the major is below the largest `Int` and the pre-release validates, and gives (M+1).0.0 above the version, with no build metadata and with exactly the supplied pre-release, rendered as its trimmed text, or none |
| Versions.NextMinor | src/commonMain/kotlin/com/osmerion/kotlin/semver/SemanticVersion.kt:248-253 | `nextMinor` gives M.(m+1).0 above the version, with no build metadata and with exactly the supplied pre-release, rendered as its trimmed text, or none; a wrapped minor or bad pre-release is a version-format error |
| Versions.NextPatch | src/commonMain/kotlin/com/osmerion/kotlin/semver/SemanticVersion.kt:266-271 | `nextPatch` raises the patch unless the version is a pre-release and no new one is given; the result is always above the version, with no build metadata and with exactly the supplied pre-release, rendered as its trimmed text, or none |
| Versions.WithoutSuffixesProperties | src/commonMain/kotlin/com/osmerion/kotlin/semver/SemanticVersion.kt:322 | `withoutSuffixes` is the copy without pre-release and metadata; it is never below the version, equal exactly for a release, and idempotent |
| Versions.StableMeansReleaseFromOne | src/commonMain/kotlin/com/osmerion/kotlin/semver/SemanticVersion.kt:90 | a version is stable exactly when it is a release at or above 1.0.0 |
| Versions.ZeroPartValid | src/commonMain/kotlin/com/osmerion/kotlin/semver/internal/PreRelease.kt:34 | "0" is a valid part and `MIN` a valid pre-release |
| Versions.CreateZeroPreRelease | src/commonMain/kotlin/com/osmerion/kotlin/semver/SemanticVersion.kt:62-76 | constructing with pre-release "0" gives the numbers with the least pre-release |
| Versions.BelowZeroPreRelease | src/commonMain/kotlin/com/osmerion/kotlin/semver/SemanticVersion.kt:105-118 | `M.m.p-0` is the least version with those numbers: a version lies below it exactly when its numbers come first |
| Versions.SmallestLargerIsSuccessor | src/commonMain/kotlin/com/osmerion/kotlin/semver/internal/PreRelease.kt:94 | the smallest larger version is above `v`, and a version lies below it exactly when it is at most `v` |
| Versions.LeastIsLeast | src/commonMain/kotlin/com/osmerion/kotlin/semver/SemanticVersion.kt:105-118 | 0.0.0-0 is at most every version and ties only with itself |
| Comparators.EqualsIsEquivalence | src/commonMain/kotlin/com/osmerion/kotlin/semver/constraints/VersionComparator.kt:34-44 | comparator `equals` (same operator, equal references) is an equivalence; equal comparators hash alike and accept the same versions |
| Comparators.MakeRangePredicate | src/commonMain/kotlin/com/osmerion/kotlin/semver/internal/constraints/RangePredicate.kt:33-38 | a range predicate is refused with a constraint-format error exactly when both bounds are present and the start is not below the end; otherwise it keeps its bounds |
| Comparators.ComparatorsMeanRange | src/commonMain/kotlin/com/osmerion/kotlin/semver/internal/constraints/RangePredicate.kt:53-57 | the comparators of a range predicate (GTE start, LT end, each when present) accept exactly the versions in `[start, end)` |
| Comparators.MakeRangePredicateNonEmpty | src/commonMain/kotlin/com/osmerion/kotlin/semver/internal/constraints/RangePredicate.kt:33-38 | a predicate with both bounds is accepted exactly when its start lies inside it, so no accepted predicate is empty |
| Comparators.EqualPredicatesAgree | src/commonMain/kotlin/com/osmerion/kotlin/semver/internal/constraints/RangePredicate.kt:40-51 | range predicates that are `equals` have the same `hashCode` and accept the same versions |
| VersionRanges.SentinelIsEmpty | src/commonMain/kotlin/com/osmerion/kotlin/semver/internal/VersionRange.kt:96 | the range `[null, 0.0.0-0)` returned when nothing survives holds no version |
| VersionRanges.EqualRangesContainAlike | src/commonMain/kotlin/com/osmerion/kotlin/semver/internal/VersionRange.kt:117-120 | ranges equal as data classes hold the same versions |
| VersionRanges.RangeEqualsIsEquivalence | src/commonMain/kotlin/com/osmerion/kotlin/semver/internal/VersionRange.kt:117-120 | data-class equality of ranges is an equivalence and equal ranges hash alike |
| VersionRanges.CompareProperties | src/commonMain/kotlin/com/osmerion/kotlin/semver/internal/VersionRange.kt:122-130 | `compareTo` raises exactly for two open-start ranges with different finite ends; otherwise it is antisymmetric and orders by start |
| VersionRanges.StartLeTransitive | src/commonMain/kotlin/com/osmerion/kotlin/semver/internal/VersionRange.kt:122-130 | the start order `compareTo` sorts by is transitive |
| VersionRanges.NonEmptyMeansSomeVersion | src/commonMain/kotlin/com/osmerion/kotlin/semver/internal/VersionRange.kt:117-120 | a range is non-empty exactly when some version lies in it |
| VersionRanges.IntersectsSymmetric | src/commonMain/kotlin/com/osmerion/kotlin/semver/internal/VersionRange.kt:143-147 | `intersects` is symmetric |
| VersionRanges.CommonVersionIntersects | src/commonMain/kotlin/com/osmerion/kotlin/semver/internal/VersionRange.kt:143-147 | two ranges holding a common version intersect |
| VersionRanges.IntersectsIffCommonVersion | src/commonMain/kotlin/com/osmerion/kotlin/semver/internal/VersionRange.kt:143-147 | two non-empty ranges intersect exactly when some version lies in both |
| VersionRanges.CommonWitness | src/commonMain/kotlin/com/osmerion/kotlin/semver/internal/VersionRange.kt:143-147 | for intersecting non-empty ranges, the later start (or 0.0.0-0) lies in both |
| VersionRanges.ToStringShape | src/commonMain/kotlin/com/osmerion/kotlin/semver/internal/VersionRange.kt:132-141 | the rendering is "*" exactly for the unbounded range, starts with ">=" exactly when there is a start, and with "<" when there is only an end; in full it is ">=start && <end", ">=start" or "<end", each bound rendered as its version |
| Conjunctions.FlattenMeaning | src/commonMain/kotlin/com/osmerion/kotlin/semver/internal/VersionRange.kt:46 | the comparators of all predicates of a conjunction hold exactly when every predicate holds |
| Conjunctions.RefsWithMembers | src/commonMain/kotlin/com/osmerion/kotlin/semver/internal/VersionRange.kt:56-60 | filtering by operator and taking references keeps exactly the references of the comparators with those operators |
| Conjunctions.SmallestLargerAll | src/commonMain/kotlin/com/osmerion/kotlin/semver/internal/VersionRange.kt:60 | mapping `toSmallestLargerVersion` over the EQ references keeps their number and order |
| Conjunctions.MaxOrNullMeaning | src/commonMain/kotlin/com/osmerion/kotlin/semver/internal/VersionRange.kt:56-58 | `maxOrNull` is null only for no references; otherwise it is one of them, and a version is at or above it exactly when it is at or above all of them |
| Conjunctions.MinOrNullMeaning | src/commonMain/kotlin/com/osmerion/kotlin/semver/internal/VersionRange.kt:60-61 | `minOrNull` is null only for no references; otherwise it is one of them, and a version is below it exactly when it is below all of them |
| Conjunctions.BoundsMeaning | src/commonMain/kotlin/com/osmerion/kotlin/semver/internal/VersionRange.kt:56-61 | the non-NEQ comparators hold exactly when the version is at or above every GTE/EQ reference and below every LT reference and every successor of an EQ reference |
| Conjunctions.WithOpMembers | src/commonMain/kotlin/com/osmerion/kotlin/semver/internal/VersionRange.kt:48-49 | filtering by operator keeps exactly the comparators with that operator |
| Conjunctions.DedupMeaning | src/commonMain/kotlin/com/osmerion/kotlin/semver/internal/VersionRange.kt:48-49 | collecting the comparators into a set (dropping equal ones) changes nothing a version must meet |
| Conjunctions.CandidateMeaning | src/commonMain/kotlin/com/osmerion/kotlin/semver/internal/VersionRange.kt:51-69 | after the EQ/NEQ clash check and the crossing-bounds check, the candidate range holds exactly the versions meeting the non-NEQ comparators; when the conjunction is dropped, no version meets all its comparators |
| Conjunctions.Find | src/commonMain/kotlin/com/osmerion/kotlin/semver/internal/VersionRange.kt:72 | `find` returns the first range whose closed interval holds the NEQ reference, or null when none does |
| Conjunctions.RemoveMembers | src/commonMain/kotlin/com/osmerion/kotlin/semver/internal/VersionRange.kt:73 | `remove` keeps exactly the ranges not equal to the one found |
| Conjunctions.AddMembers | src/commonMain/kotlin/com/osmerion/kotlin/semver/internal/VersionRange.kt:76-80 | set `add` keeps every range, adds nothing but the new one, and leaves it or an equal range present |
| Conjunctions.SplitPartsInside | src/commonMain/kotlin/com/osmerion/kotlin/semver/internal/VersionRange.kt:75-80 | the lower part `[start, x)` and upper part `[smallestLarger(x), end)` lie within the split range and apart from each other |
| Conjunctions.SplitAtMembers | src/commonMain/kotlin/com/osmerion/kotlin/semver/internal/VersionRange.kt:72-80 | after a split at `x` every range is an untouched one or one of the two parts, and every untouched range is kept |
| Conjunctions.SplitAtKeepsDisjoint | src/commonMain/kotlin/com/osmerion/kotlin/semver/internal/VersionRange.kt:71-81 | one split keeps the ranges well formed and their closed intervals pairwise apart |
| Conjunctions.SplitAtMeaning | src/commonMain/kotlin/com/osmerion/kotlin/semver/internal/VersionRange.kt:72-80 | splitting at a NEQ reference removes exactly the versions equal to it from the union |
| Conjunctions.SplitAllMeaning | src/commonMain/kotlin/com/osmerion/kotlin/semver/internal/VersionRange.kt:71-81 | the NEQ loop keeps the ranges disjoint and leaves exactly the versions of the candidate that meet every NEQ comparator |
| Conjunctions.PiecesMeaning | src/commonMain/kotlin/com/osmerion/kotlin/semver/internal/VersionRange.kt:45-83 | a version lies in one of the ranges a conjunction contributes exactly when it satisfies every predicate of the conjunction |
| Conjunctions.ConjunctionRanges | src/commonMain/kotlin/com/osmerion/kotlin/semver/internal/VersionRange.kt:45-84 | one pass of the outer loop computes exactly the ranges `Pieces` specifies |
| Normalizer.CandidatesMeaning | src/commonMain/kotlin/com/osmerion/kotlin/semver/internal/VersionRange.kt:45-84 | the ranges collected over all conjunctions hold exactly the versions that satisfy the formula (some conjunction holds) |
| Normalizer.Insert | src/commonMain/kotlin/com/osmerion/kotlin/semver/internal/VersionRange.kt:92 | inserting into the sorted prefix adds exactly the one range (a permutation step of the stable sort) |
| Normalizer.InsertionSort | src/commonMain/kotlin/com/osmerion/kotlin/semver/internal/VersionRange.kt:92 | the sort's result is a permutation of its input |
| Normalizer.InsertSorted | src/commonMain/kotlin/com/osmerion/kotlin/semver/internal/VersionRange.kt:92 | inserting a range with no open-start clash into a start-sorted list keeps it start-sorted |
| Normalizer.InsertionSortSorted | src/commonMain/kotlin/com/osmerion/kotlin/semver/internal/VersionRange.kt:92 | when no pair of ranges makes `compareTo` raise, the sorted list is ordered by start |
| Normalizer.SamePermutationSameUnion | src/commonMain/kotlin/com/osmerion/kotlin/semver/internal/VersionRange.kt:92 | sorting changes neither the union of the ranges nor their well-formedness |
| Normalizer.MaxOf | src/commonMain/kotlin/com/osmerion/kotlin/semver/internal/VersionRange.kt:105 | `maxOf` returns one of its two arguments |
| Normalizer.MaxOfIsUpperBound | src/commonMain/kotlin/com/osmerion/kotlin/semver/internal/VersionRange.kt:105 | `maxOf` is at or above both arguments |
| Normalizer.MergeFrom | src/commonMain/kotlin/com/osmerion/kotlin/semver/internal/VersionRange.kt:100-113 | the merge loop emits at least one range and no more than it was given |
| Normalizer.MergedContains | src/commonMain/kotlin/com/osmerion/kotlin/semver/internal/VersionRange.kt:103-106 | merging two touching ranges, the first starting no later, gives exactly their union |
| Normalizer.MergeMeaning | src/commonMain/kotlin/com/osmerion/kotlin/semver/internal/VersionRange.kt:100-113 | over start-sorted ranges, the merge loop keeps exactly the union |
| Normalizer.MergeStarts | src/commonMain/kotlin/com/osmerion/kotlin/semver/internal/VersionRange.kt:100-113 | every range the merge loop emits starts no earlier than the current one |
| Normalizer.NotTouchingSeparated | src/commonMain/kotlin/com/osmerion/kotlin/semver/internal/VersionRange.kt:103 | two ranges the merge keeps apart leave a gap: the first ends strictly before the second starts |
| Normalizer.MergeCanonical | src/commonMain/kotlin/com/osmerion/kotlin/semver/internal/VersionRange.kt:100-113 | over start-sorted ranges none of which is inverted, the merge yields sorted ranges with gaps between them |
| Normalizer.MergeAll | src/commonMain/kotlin/com/osmerion/kotlin/semver/internal/VersionRange.kt:94-114 | merging a start-sorted, non-empty list keeps its union |
| Normalizer.NormalizeMeaning | src/commonMain/kotlin/com/osmerion/kotlin/semver/internal/VersionRange.kt:38-115 | `toVersionRanges` raises exactly when the sort meets two open-start ranges with different ends; otherwise its non-empty result holds exactly the versions satisfying the formula |
| Normalizer.SortFacts | src/commonMain/kotlin/com/osmerion/kotlin/semver/internal/VersionRange.kt:92 | a successful sort of well-formed ranges yields well-formed, start-sorted ranges drawn from the input |
| Normalizer.MergeAllCanonical | src/commonMain/kotlin/com/osmerion/kotlin/semver/internal/VersionRange.kt:94-114 | merging a start-sorted list without inverted ranges gives the canonical form |
| Normalizer.NormalizeCanonical | src/commonMain/kotlin/com/osmerion/kotlin/semver/internal/VersionRange.kt:38-115 | when no collected range is inverted, a successful result is canonical: sorted, and separated by versions in none of them |
| Normalizer.CanonicalLeavesGaps | src/commonMain/kotlin/com/osmerion/kotlin/semver/internal/VersionRange.kt:86-90 | between consecutive ranges of a canonical list lies a version in none of them (the first range's end), so the representation is minimal |
| Normalizer.NothingSurvivesGivesSentinel | src/commonMain/kotlin/com/osmerion/kotlin/semver/internal/VersionRange.kt:95-97 | when every conjunction is dropped, the result is the single empty sentinel `[null, 0.0.0-0)` |
| Normalizer.ToVersionRanges | src/commonMain/kotlin/com/osmerion/kotlin/semver/internal/VersionRange.kt:38-115 | the procedure (collect, sort, merge) returns exactly `Normalize` |
| Normalizer.CollectRanges | src/commonMain/kotlin/com/osmerion/kotlin/semver/internal/VersionRange.kt:45-84 | the outer loop appends each conjunction's ranges in order, i.e. `Candidates` |
| Normalizer.MergeSorted | src/commonMain/kotlin/com/osmerion/kotlin/semver/internal/VersionRange.kt:94-114 | the merge loop returns exactly `MergeFrom` of the sorted list |
| Normalizer.RangePredicatePieces | src/commonMain/kotlin/com/osmerion/kotlin/semver/internal/VersionRange.kt:45-84 | an accepted range predicate alone contributes exactly its own range |
| Normalizer.SinglePredicate | src/commonMain/kotlin/com/osmerion/kotlin/semver/internal/VersionRange.kt:38-115 | normalizing one accepted range predicate yields exactly its range |
| Normalizer.OpenStartsFail | src/commonMain/kotlin/com/osmerion/kotlin/semver/internal/VersionRange.kt:127-129 | two ranges without a start but with different ends, as produced by "<a" or "<b", make the sort raise an illegal-state error |
| Normalizer.NeqAtUpperEnd | src/commonMain/kotlin/com/osmerion/kotlin/semver/internal/VersionRange.kt:72-80 | `>=s <e !=e` is split at its own end: the inverted range `[smallestLarger(e), e)` is kept in the result, which is therefore not canonical |
| Normalizer.SortTwo | src/commonMain/kotlin/com/osmerion/kotlin/semver/internal/VersionRange.kt:92 | the stable sort keeps two ranges already in order |
| VersionConstraints.Build | src/commonMain/kotlin/com/osmerion/kotlin/semver/VersionConstraint.kt:63-67 | constructing a constraint fails exactly when `toVersionRanges` raises (the `ranges` initializer at line 120); otherwise it keeps the predicates and the preferred version |
| VersionConstraints.Parse | src/commonMain/kotlin/com/osmerion/kotlin/semver/VersionConstraint.kt:89-95 | a format failure propagates; no conjunctions, or only empty ones, is a constraint-format error; otherwise the constraint holds what the format produced |
| VersionConstraints.TryParseMeaning | src/commonMain/kotlin/com/osmerion/kotlin/semver/VersionConstraint.kt:112-116 | `tryParse` is null exactly where `parse` raises a constraint-format error, agrees where it succeeds, and lets other errors through |
| VersionConstraints.ParseMeaning | src/commonMain/kotlin/com/osmerion/kotlin/semver/VersionConstraint.kt:120 | a parsed constraint's ranges are non-empty, well formed, and hold exactly the versions satisfying its predicates |
| VersionConstraints.EqualRangeListsHashAlike | src/commonMain/kotlin/com/osmerion/kotlin/semver/VersionConstraint.kt:131-135 | equal range lists have the same list hash |
| VersionConstraints.RangeListEqualsIsEquivalence | src/commonMain/kotlin/com/osmerion/kotlin/semver/VersionConstraint.kt:122-128 | element-wise range-list equality is an equivalence |
| VersionConstraints.EqualsIsEquivalence | src/commonMain/kotlin/com/osmerion/kotlin/semver/VersionConstraint.kt:122-135 | constraint equality (equal ranges and preferred version) is an equivalence, and equal constraints hash alike |
| VersionConstraints.SearchSound | src/commonMain/kotlin/com/osmerion/kotlin/semver/VersionConstraint.kt:178-210 | whatever the list, a positive answer of the binary search comes from a range that holds the version and admits it under the pre-release rule |
| VersionConstraints.CanonicalContainsOnce | src/commonMain/kotlin/com/osmerion/kotlin/semver/VersionConstraint.kt:178-210 | in the normalizer's canonical output no version lies in two ranges |
| VersionConstraints.CanonicalStartsRise | src/commonMain/kotlin/com/osmerion/kotlin/semver/VersionConstraint.kt:178-210 | in a canonical list a range to the right of another starts strictly above it |
| VersionConstraints.SearchComplete | src/commonMain/kotlin/com/osmerion/kotlin/semver/VersionConstraint.kt:178-210 | when the range holding the version guides the search, the search answers by that range's pre-release rule |
| VersionConstraints.CanonicalGuides | src/commonMain/kotlin/com/osmerion/kotlin/semver/VersionConstraint.kt:202-206 | in a canonical list the range holding a version guides every probe of the search toward it |
| VersionConstraints.SearchStep | src/commonMain/kotlin/com/osmerion/kotlin/semver/VersionConstraint.kt:202-206 | a probed range other than the holding one does not hold the version, and the search moves left exactly when the holding range is to its left |
| VersionConstraints.FoundMeaning | src/commonMain/kotlin/com/osmerion/kotlin/semver/VersionConstraint.kt:178-210 | the search always implies the documented satisfaction (a holding range that admits the version), and on canonical ranges is exactly it |
| VersionConstraints.ReleaseSatisfiedIffContained | src/commonMain/kotlin/com/osmerion/kotlin/semver/VersionConstraint.kt:198-201 | for a release, or with pre-releases included, satisfaction is plain containment |
| VersionConstraints.NormalVersionsEqual | src/commonMain/kotlin/com/osmerion/kotlin/semver/VersionConstraint.kt:200-201 | two versions' normal versions are equal exactly when their numbers agree |
| VersionConstraints.ConstraintMeaning | src/commonMain/kotlin/com/osmerion/kotlin/semver/VersionConstraint.kt:178-210 | a constraint whose collected ranges are not inverted accepts a release (or any version with pre-releases included) exactly when it satisfies the predicates |
| VersionConstraints.IsSatisfiedBy | src/commonMain/kotlin/com/osmerion/kotlin/semver/VersionConstraint.kt:178-210 | the binary-search loop returns exactly `Found` |
| VersionConstraints.IsSatisfiedByVersion | src/commonMain/kotlin/com/osmerion/kotlin/semver/VersionConstraint.kt:152-153 | without pre-releases included, the answer is `Found`, which on canonical ranges is containment for a release |
| VersionConstraints.IsSatisfiedByAll | src/commonMain/kotlin/com/osmerion/kotlin/semver/VersionConstraint.kt:223-224 | true exactly when every version satisfies the constraint (true for none) |
| VersionConstraints.IsSatisfiedByAny | src/commonMain/kotlin/com/osmerion/kotlin/semver/VersionConstraint.kt:237-238 | true exactly when some version satisfies the constraint (false for none) |
| VersionConstraints.EqualConstraintsAgree | src/commonMain/kotlin/com/osmerion/kotlin/semver/VersionConstraint.kt:122-128 | equal constraints accept the same versions |
| VersionConstraints.EqualSearch | src/commonMain/kotlin/com/osmerion/kotlin/semver/VersionConstraint.kt:178-210 | the search gives the same answer on equal range lists |
| VersionConstraints.EqualRangesSearchAlike | src/commonMain/kotlin/com/osmerion/kotlin/semver/VersionConstraint.kt:186-206 | equal ranges look the same to each step of the search |
| NormalForm.CanonicalUnique | src/commonMain/kotlin/com/osmerion/kotlin/semver/internal/VersionRange.kt:86-114 | the normalized form is unique: two canonical range lists that hold the same versions, and whose first ranges agree on having a null start, are equal range by range |
| NormalForm.NonEmptyUnique | src/commonMain/kotlin/com/osmerion/kotlin/semver/internal/VersionRange.kt:86-114 | two canonical lists of non-empty ranges that hold the same versions, and agree on a null first start, are equal range by range |
| NormalForm.HollowHeadsUnique | src/commonMain/kotlin/com/osmerion/kotlin/semver/internal/VersionRange.kt:95-98 | two canonical lists that both begin with the empty sentinel and hold the same versions are equal range by range |
| NormalForm.HeadStartLowest | src/commonMain/kotlin/com/osmerion/kotlin/semver/internal/VersionRange.kt:86-114 | in a canonical list the first range's start is at or below every version the list holds |
| NormalForm.CanonicalRest | src/commonMain/kotlin/com/osmerion/kotlin/semver/internal/VersionRange.kt:86-114 | dropping the first range of a canonical list leaves a canonical list that holds exactly the versions the first range does not |
| NormalForm.EndsAgree | src/commonMain/kotlin/com/osmerion/kotlin/semver/internal/VersionRange.kt:86-114 | two canonical lists that hold the same versions and begin at the same start have equal first ranges |
| NormalForm.HollowHead | src/commonMain/kotlin/com/osmerion/kotlin/semver/internal/VersionRange.kt:95-98 | an empty first range of a canonical list is the sentinel: null start, end 0.0.0-0, holding no version, so the list does not hold 0.0.0-0 |
| NormalForm.NormalizedFirstStart | src/commonMain/kotlin/com/osmerion/kotlin/semver/internal/VersionRange.kt:92-114 | the normalized list begins with a null start exactly when nothing was collected or some collected range has a null start |
| NormalForm.SortedFirstOpen | src/commonMain/kotlin/com/osmerion/kotlin/semver/internal/VersionRange.kt:92 | after sorting, the first range has a null start exactly when some range of the input has one |
| NormalForm.MergeKeepsFirstStart | src/commonMain/kotlin/com/osmerion/kotlin/semver/internal/VersionRange.kt:100-113 | merging keeps the start of the range it begins with |
| NormalForm.CollectedAdmitsSome | src/commonMain/kotlin/com/osmerion/kotlin/semver/internal/VersionRange.kt:45-84 | when ranges were collected, none has a null start and none is inverted, some version satisfies the formula |
| NormalForm.SameMeaningSameRanges | src/commonMain/kotlin/com/osmerion/kotlin/semver/VersionConstraint.kt:120-126 | two formulas admitting the same versions, without inverted ranges and agreeing on a null start, normalize to equal range lists |
| NormalForm.CollectedFrom | src/commonMain/kotlin/com/osmerion/kotlin/semver/internal/VersionRange.kt:45-84 | a range is collected exactly when it is a piece of some conjunction of the formula |
| NormalForm.ReorderedAlike | src/commonMain/kotlin/com/osmerion/kotlin/semver/internal/VersionRange.kt:45-84 | formulas holding the same conjunctions, in any order or repetition, collect the same ranges, admit the same versions and are well formed alike |
| NormalForm.ReorderedDisjunctsNormalizeAlike | src/commonMain/kotlin/com/osmerion/kotlin/semver/VersionConstraint.kt:120-131 | reordering the conjunctions of a formula without inverted ranges leaves normalization succeeding alike and the normalized ranges equal |
| NormalForm.FlattenMembers | src/commonMain/kotlin/com/osmerion/kotlin/semver/internal/VersionRange.kt:46 | a comparator of the flattened conjunction is a comparator of one of its predicates, and each such comparator is in it |
| NormalForm.SplitAtOpen | src/commonMain/kotlin/com/osmerion/kotlin/semver/internal/VersionRange.kt:71-81 | splitting around a NEQ reference keeps a null start exactly when there was one |
| NormalForm.SplitAllOpen | src/commonMain/kotlin/com/osmerion/kotlin/semver/internal/VersionRange.kt:71-81 | splitting around every NEQ reference keeps a null start exactly when there was one |
| NormalForm.OpenPieces | src/commonMain/kotlin/com/osmerion/kotlin/semver/internal/VersionRange.kt:45-84 | a conjunction yields a range with a null start exactly when none of its comparators is GTE or EQ |
| NormalForm.RegroupedConjAdmits | src/commonMain/kotlin/com/osmerion/kotlin/semver/internal/VersionRange.kt:46 | conjunctions whose predicates hold the same comparators admit the same versions |
| NormalForm.RegroupedConjOpen | src/commonMain/kotlin/com/osmerion/kotlin/semver/internal/VersionRange.kt:45-84 | conjunctions whose predicates hold the same comparators agree on yielding a null start |
| NormalForm.RegroupedFormulasAdmit | src/commonMain/kotlin/com/osmerion/kotlin/semver/internal/VersionRange.kt:45-46 | formulas whose conjunctions hold the same comparators, position by position, admit the same versions |
| NormalForm.RegroupedFormulasOpen | src/commonMain/kotlin/com/osmerion/kotlin/semver/internal/VersionRange.kt:45-84 | formulas whose conjunctions hold the same comparators, position by position, agree on collecting a null start |
| NormalForm.RegroupedPredicatesNormalizeAlike | src/commonMain/kotlin/com/osmerion/kotlin/semver/VersionConstraint.kt:120-131 | reordering or regrouping the predicates inside each conjunction, without inverted ranges, gives equal normalized ranges |
| NormalForm.PermutedPredicatesSameComparators | src/commonMain/kotlin/com/osmerion/kotlin/semver/internal/VersionRange.kt:46 | permuting the predicates of a conjunction keeps the comparators that flattening yields |
| NormalForm.ReorderedConstraintsEqual | src/commonMain/kotlin/com/osmerion/kotlin/semver/VersionConstraint.kt:120-128 | constraints built from the same conjunctions in another order are built alike and are equal, when no collected range is inverted |
| NormalForm.NeqAtEndOrderMatters | src/commonMain/kotlin/com/osmerion/kotlin/semver/internal/VersionRange.kt:71-80 | with ">=s <e !=e" and ">e" the two orders of the conjunctions admit the same versions but normalize to different range lists, because the NEQ split leaves the inverted range [e', e) whose place in the sort follows the input order |
| NpmOps.ToOperatorRoundTrip | src/commonMain/kotlin/com/osmerion/kotlin/semver/constraints/npm/internal/Op.kt:47-58 | reading an operator's own symbol (line 32) gives it back, and exactly the listed symbols name an operator |
| NpmOps.ReversedSpellings | src/commonMain/kotlin/com/osmerion/kotlin/semver/constraints/npm/internal/Op.kt:54-55 | "=>" and "=<" are read as ">=" and "<=" |
| NpmOps.StartsWithOperatorMeaning | src/commonMain/kotlin/com/osmerion/kotlin/semver/constraints/npm/internal/Op.kt:36-45 | the operator at the front is the one named by the longest symbol the text starts with: two characters when they form one, else one, else none |
| NpmOps.TwoCharacterFirst | src/commonMain/kotlin/com/osmerion/kotlin/semver/constraints/npm/internal/Op.kt:39-44 | ">=1.0.0" reads as ">=", "<1" as "<", and a text without operator as none |
| NpmOps.IsX | src/commonMain/kotlin/com/osmerion/kotlin/semver/constraints/npm/internal/parser.kt:145 | a missing, empty, "x"/"X" or "*" component is a wildcard, and nothing else is |
| NpmDescriptors.IfBlankNull | src/commonMain/kotlin/com/osmerion/kotlin/semver/constraints/npm/internal/descriptors.kt:35-36 | a blank group becomes null, and any other group is kept as it is |
| NpmDescriptors.Parse | src/commonMain/kotlin/com/osmerion/kotlin/semver/constraints/npm/internal/descriptors.kt:30-40 | "*" is the star descriptor; text the X-range pattern rejects is a constraint-format error; otherwise parsing succeeds exactly when the pre-release group, if any, validates: the groups become the components (blank minor/patch as null), the pre-release is the validated group, and an invalid pre-release is a version-format error |
| NpmDescriptors.TryParseMeaning | src/commonMain/kotlin/com/osmerion/kotlin/semver/constraints/npm/internal/descriptors.kt:42-48 | `tryParse` is null exactly where `parse` raises a constraint-format error, agrees where it succeeds, and lets a version-format error through |
| NpmDescriptors.AccessorsMeaning | src/commonMain/kotlin/com/osmerion/kotlin/semver/constraints/npm/internal/descriptors.kt:79-81 | a wildcard or absent component has no numeric value; a numeral within `Int` range reads as its value |
| NpmDescriptors.ToVersion | src/commonMain/kotlin/com/osmerion/kotlin/semver/constraints/npm/internal/descriptors.kt:50-53 | the star descriptor has no version; a regular one gives a valid version without build metadata, or a version-format error |
| NpmDescriptors.ToVersionMeaning | src/commonMain/kotlin/com/osmerion/kotlin/semver/constraints/npm/internal/descriptors.kt:51 | a regular descriptor with non-negative components gives exactly the version of its components, absent or wildcard ones as 0, with its pre-release |
| NpmDescriptors.ToVersionRejectsNegative | src/commonMain/kotlin/com/osmerion/kotlin/semver/constraints/npm/internal/descriptors.kt:51 | a negative component is rejected by the version constructor with a version-format error |
| NpmDescriptors.ToStringDropsUnreachable | src/commonMain/kotlin/com/osmerion/kotlin/semver/constraints/npm/internal/descriptors.kt:67-77 | components after an absent one are not rendered |
| NpmDescriptors.ToStringComponents | src/commonMain/kotlin/com/osmerion/kotlin/semver/constraints/npm/internal/descriptors.kt:67-77 | splitting the rendering of a descriptor without pre-release at '.' gives its components back |
| NpmPredicates.ZeroPre | src/commonMain/kotlin/com/osmerion/kotlin/semver/constraints/npm/internal/predicates.kt:47-49 | `SemanticVersion(M, m, p, "0")` succeeds exactly for non-negative numbers and is the least version with those numbers |
| NpmPredicates.OperatorEqualsAgree | src/commonMain/kotlin/com/osmerion/kotlin/semver/constraints/npm/internal/predicates.kt:108-116 | predicate equality with a missing operator read as "=" is an equivalence; equal predicates hash alike and give the same comparators |
| NpmPredicates.OperatorToStringReadsBack | src/commonMain/kotlin/com/osmerion/kotlin/semver/constraints/npm/internal/predicates.kt:118-121 | the operator of a rendered comparator predicate is read back off the front of its text |
| NpmPredicates.UnboundedKinds | src/commonMain/kotlin/com/osmerion/kotlin/semver/constraints/npm/internal/predicates.kt:32-35 | "*", no descriptor, a wildcard major and "<=*" give no comparators and so accept every version |
| NpmPredicates.NothingBelowLeast | src/commonMain/kotlin/com/osmerion/kotlin/semver/constraints/npm/internal/predicates.kt:70-85 | "<*" and ">*" (and a wildcard major) give LT 0.0.0-0, which no version passes |
| NpmPredicates.StartOf | src/commonMain/kotlin/com/osmerion/kotlin/semver/constraints/npm/internal/predicates.kt:40 | the version a numeric descriptor names, absent components as 0, is valid |
| NpmPredicates.BelowZeroPreRange | src/commonMain/kotlin/com/osmerion/kotlin/semver/constraints/npm/internal/predicates.kt:47-49 | `[start, M.m.p-0)` is accepted exactly when start's numbers come first, and holds the versions from start whose numbers come before |
| NpmPredicates.XRangeForm | src/commonMain/kotlin/com/osmerion/kotlin/semver/constraints/npm/internal/predicates.kt:159-175 | an X range on a numeric descriptor is `[its version, next major/minor/patch with "-0")` by how many components it gives |
| NpmPredicates.XRangeMeaning | src/commonMain/kotlin/com/osmerion/kotlin/semver/constraints/npm/internal/predicates.kt:159-175 | an X range accepts exactly the versions from its descriptor's version on that share the components it gives |
| NpmPredicates.XRangeMajorOverflow | src/commonMain/kotlin/com/osmerion/kotlin/semver/constraints/npm/internal/predicates.kt:171 | an X range on the largest `Int` major cannot form its end: the increment wraps and the version constructor rejects it |
| NpmPredicates.TildeForm | src/commonMain/kotlin/com/osmerion/kotlin/semver/constraints/npm/internal/predicates.kt:143-151 | a tilde range ends at the next minor with "-0" when a patch is given, else at the next major with "-0" |
| NpmPredicates.TildeMeaning | src/commonMain/kotlin/com/osmerion/kotlin/semver/constraints/npm/internal/predicates.kt:143-151 | a tilde range accepts the versions from its version with the same major, and the same minor only when a patch is given |
| NpmPredicates.TildeWithoutPatchSpansMinors | src/commonMain/kotlin/com/osmerion/kotlin/semver/constraints/npm/internal/predicates.kt:148-149 | "~2.4" accepts 2.5.0, since only the presence of a patch is checked |
| NpmPredicates.CaretForm | src/commonMain/kotlin/com/osmerion/kotlin/semver/constraints/npm/internal/predicates.kt:39-52 | a caret range ends at the next major, next minor, or the same patch with "-0", by the first non-zero component given |
| NpmPredicates.CaretMeaning | src/commonMain/kotlin/com/osmerion/kotlin/semver/constraints/npm/internal/predicates.kt:39-52 | a caret range keeps the same major, or for a 0 major the same minor; on 0.0 with a patch the end is not above the start and the predicate is rejected |
| NpmPredicates.CaretStarMajorFails | src/commonMain/kotlin/com/osmerion/kotlin/semver/constraints/npm/internal/predicates.kt:47 | a caret descriptor whose major is "*" has no number and `major!!` raises |
| NpmPredicates.HyphenForm | src/commonMain/kotlin/com/osmerion/kotlin/semver/constraints/npm/internal/predicates.kt:125-138 | a hyphen range ends after its upper bound: next major/minor with "-0" for a partial bound, the smallest larger version for a full one |
| NpmPredicates.BelowHyphenEnd | src/commonMain/kotlin/com/osmerion/kotlin/semver/constraints/npm/internal/predicates.kt:130-137 | a version is below the hyphen range's end exactly when it is within the upper bound |
| NpmPredicates.HyphenMeaning | src/commonMain/kotlin/com/osmerion/kotlin/semver/constraints/npm/internal/predicates.kt:125-138 | "l - u" is formed exactly when l's version lies within u, and then accepts the versions from l up to u, a partial u covering every version it leaves open |
| NpmPredicates.EqualOrAtLeastMeaning | src/commonMain/kotlin/com/osmerion/kotlin/semver/constraints/npm/internal/predicates.kt:66-67 | "v" and "=v" accept the versions equal to the descriptor's version, ">=v" those at or above it |
| NpmPredicates.AtMostMeaning | src/commonMain/kotlin/com/osmerion/kotlin/semver/constraints/npm/internal/predicates.kt:68 | "<=v" accepts exactly the versions at most the descriptor's version |
| NpmPredicates.BelowForm | src/commonMain/kotlin/com/osmerion/kotlin/semver/constraints/npm/internal/predicates.kt:69-80 | "<v" is LT the version, with "-0" when minor or patch is missing |
| NpmPredicates.BelowMeaning | src/commonMain/kotlin/com/osmerion/kotlin/semver/constraints/npm/internal/predicates.kt:69-80 | "<v" on a full descriptor accepts the versions below it; on a partial one those whose numbers come before, so "<1.2" also shuts out 1.2.0's pre-releases |
| NpmPredicates.AtLeastZeroPre | src/commonMain/kotlin/com/osmerion/kotlin/semver/constraints/npm/internal/predicates.kt:86-88 | GTE `M.m.p-0` accepts exactly the versions whose numbers do not come before |
| NpmPredicates.AboveForm | src/commonMain/kotlin/com/osmerion/kotlin/semver/constraints/npm/internal/predicates.kt:82-91 | ">v" is GTE the next major, minor or patch with "-0", or the version itself for a full pre-release descriptor |
| NpmPredicates.AboveMeaning | src/commonMain/kotlin/com/osmerion/kotlin/semver/constraints/npm/internal/predicates.kt:82-91 | ">v" accepts versions above it for a full release, a larger major or minor for a partial one, and for a full pre-release descriptor the versions at or above it, its own version included |
| MavenDescriptors.Parse | src/commonMain/kotlin/com/osmerion/kotlin/semver/constraints/maven/internal/descriptors.kt:31-41 | text the descriptor pattern rejects raises a constraint-format error; validation of the pre-release can only raise a version-format error |
| MavenDescriptors.ParseToString | src/commonMain/kotlin/com/osmerion/kotlin/semver/constraints/maven/internal/descriptors.kt:33-68 | reading the rendering of any well-formed descriptor gives the same descriptor back |
| MavenDescriptors.ToStringParse | src/commonMain/kotlin/com/osmerion/kotlin/semver/constraints/maven/internal/descriptors.kt:33-68 | whatever reads successfully is well formed and renders as exactly the text it was read from |
| MavenDescriptors.ParsedFields | src/commonMain/kotlin/com/osmerion/kotlin/semver/constraints/maven/internal/descriptors.kt:34-38 | the major, minor, patch and pre-release of a parsed descriptor are the groups the pattern captures, the pre-release validated |
| MavenDescriptors.RenderingShape | src/commonMain/kotlin/com/osmerion/kotlin/semver/constraints/maven/internal/descriptors.kt:58-68 | the rendering is the present number parts joined by '.', followed by "-" and the pre-release only when minor and patch are both present |
| MavenDescriptors.GroupsOfRendering | src/commonMain/kotlin/com/osmerion/kotlin/semver/constraints/maven/internal/descriptors.kt:31-68 | the pattern applied to a rendered descriptor captures exactly its number parts and its pre-release text |
| MavenDescriptors.RenderedChars | src/commonMain/kotlin/com/osmerion/kotlin/semver/constraints/maven/internal/descriptors.kt:58-68 | a rendering is non-empty and made only of identifier characters and '.', hence free of whitespace, commas and brackets |
| MavenDescriptors.ParsedIsPlain | src/commonMain/kotlin/com/osmerion/kotlin/semver/constraints/maven/internal/descriptors.kt:31-35 | text that reads as a descriptor is non-empty and holds no comma, bracket or whitespace |
| MavenDescriptors.ParseFailsOnlyOnFormat | src/commonMain/kotlin/com/osmerion/kotlin/semver/constraints/maven/internal/descriptors.kt:34-38 | text the pattern matches always has a valid pre-release, so the only failure is a constraint-format error |
| MavenDescriptors.PreReleaseNeedsPatch | src/commonMain/kotlin/com/osmerion/kotlin/semver/constraints/maven/internal/descriptors.kt:31 | a parsed descriptor with a pre-release always has both minor and patch |
| MavenDescriptors.MajorValue | src/commonMain/kotlin/com/osmerion/kotlin/semver/constraints/maven/internal/descriptors.kt:70 | a major that converts is within the range of an `Int`; a larger numeral fails |
| MavenDescriptors.ToVersion | src/commonMain/kotlin/com/osmerion/kotlin/semver/constraints/maven/internal/descriptors.kt:43-46 | a successful conversion is a well-formed version |
| MavenDescriptors.ToVersionMeaning | src/commonMain/kotlin/com/osmerion/kotlin/semver/constraints/maven/internal/descriptors.kt:43-49 | when the numbers fit, the version has the descriptor's numbers with absent ones as 0 and its pre-release; with `increment` it is the least version above that one |
| MavenDescriptors.OversizedNumbers | src/commonMain/kotlin/com/osmerion/kotlin/semver/constraints/maven/internal/descriptors.kt:43-72 | a major beyond `Int` raises a number-format error, while a minor beyond `Int` silently becomes 0 |
| MavenPredicates.Construct | src/commonMain/kotlin/com/osmerion/kotlin/semver/constraints/maven/internal/predicates.kt:37-78 | a predicate is built exactly when its range can be computed, and the failure is the range's own error |
| MavenPredicates.Interval | src/commonMain/kotlin/com/osmerion/kotlin/semver/constraints/maven/internal/predicates.kt:49-59 | a missing bound marked inclusive is a constraint-format error; otherwise the interval holds the given bounds and flags |
| MavenPredicates.StartMeaning | src/commonMain/kotlin/com/osmerion/kotlin/semver/constraints/maven/internal/predicates.kt:43 | an interval's start is the lower bound when inclusive and the least version above it when exclusive, so being at or above the start means lying above the bound as marked |
| MavenPredicates.EndMeaning | src/commonMain/kotlin/com/osmerion/kotlin/semver/constraints/maven/internal/predicates.kt:44 | an interval's end is the upper bound's successor when inclusive and the bound itself when exclusive, so being below the end means lying below the bound as marked |
| MavenPredicates.IntervalMeaning | src/commonMain/kotlin/com/osmerion/kotlin/semver/constraints/maven/internal/predicates.kt:37-47 | an interval accepts exactly the versions between its bounds, each bound included or excluded as its bracket says, a missing bound imposing nothing |
| MavenPredicates.ExactMeaning | src/commonMain/kotlin/com/osmerion/kotlin/semver/constraints/maven/internal/predicates.kt:30-35 | "[d]" accepts exactly the versions of equal precedence to d |
| MavenPredicates.ExactIsInclusiveSingleton | src/commonMain/kotlin/com/osmerion/kotlin/semver/constraints/maven/internal/predicates.kt:30-47 | "[d]" and "[d,d]" denote the same range |
| MavenPredicates.MinimumMeaning | src/commonMain/kotlin/com/osmerion/kotlin/semver/constraints/maven/internal/predicates.kt:73-78 | a soft minimum accepts exactly the versions at or above it |
| MavenPredicates.DegenerateIntervalRejected | src/commonMain/kotlin/com/osmerion/kotlin/semver/constraints/maven/internal/predicates.kt:37-59 | an interval whose two bounds coincide but are not both inclusive is empty and is rejected with a constraint-format error |
| MavenFormat.FirstMeaning | src/commonMain/kotlin/com/osmerion/kotlin/semver/constraints/maven/MavenConstraintFormat.kt:123-136 | the search returns the first matching index at or after the start, and raises an index-out-of-bounds error exactly when no character matches; -1 never comes back |
| MavenFormat.IndexOfFirst | src/commonMain/kotlin/com/osmerion/kotlin/semver/constraints/maven/MavenConstraintFormat.kt:123-136 | the loop computes exactly the search result: the first closer, or the raise past the end |
| MavenFormat.GroupMeaning | src/commonMain/kotlin/com/osmerion/kotlin/semver/constraints/maven/MavenConstraintFormat.kt:59-66 | a group that is read ends at the first ')', ']' or '[' after its opener, and its predicate is the contents between them read with '[' opening and ']' closing as the inclusive bounds; with no closer left in the text the search raises index-out-of-bounds |
| MavenFormat.GroupAt | src/commonMain/kotlin/com/osmerion/kotlin/semver/constraints/maven/MavenConstraintFormat.kt:59-87 | when the first closer after the opener is at e, the group yields the contents' predicate with e as its end, or exactly the contents' error |
| MavenFormat.RestrictionWithComma | src/commonMain/kotlin/com/osmerion/kotlin/semver/constraints/maven/MavenConstraintFormat.kt:66-81 | contents holding a comma read as an interval whose bounds are the trimmed texts before and after the first comma, with the brackets' inclusiveness |
| MavenFormat.MissingBoundExclusive | src/commonMain/kotlin/com/osmerion/kotlin/semver/constraints/maven/MavenConstraintFormat.kt:70-81 | an empty bound text on a side whose bracket is inclusive makes the group an error |
| MavenFormat.ExactNeedsInclusive | src/commonMain/kotlin/com/osmerion/kotlin/semver/constraints/maven/MavenConstraintFormat.kt:82-83 | contents without a comma inside a group that is not '[' ... ']' are a constraint-format error |
| MavenFormat.ExactMatchRead | src/commonMain/kotlin/com/osmerion/kotlin/semver/constraints/maven/MavenConstraintFormat.kt:82-86 | contents without a comma inside '[' ... ']' read as an exact match of the descriptor they spell, and fail with that descriptor's own error when it does not parse |
| MavenFormat.ExclusiveExactRejected | src/commonMain/kotlin/com/osmerion/kotlin/semver/constraints/maven/MavenConstraintFormat.kt:59-83 | a comma-less group closed at its first closer is rejected with a constraint-format error unless it is opened by '[' and closed by ']' |
| MavenFormat.ExclusiveExactParse | src/commonMain/kotlin/com/osmerion/kotlin/semver/constraints/maven/MavenConstraintFormat.kt:49-83 | a whole constraint that starts with such a comma-less, not fully inclusive group is a constraint-format error, whatever follows it |
| MavenFormat.ReversedBracketsExclusive | src/commonMain/kotlin/com/osmerion/kotlin/semver/constraints/maven/MavenConstraintFormat.kt:59-64 | "]a,b[" parses exactly like "(a,b)": ']' as opener and '[' as closer both mark an exclusive bound, and the result is that one interval alone or its error |
| MavenFormat.ExclusiveGroupAlone | src/commonMain/kotlin/com/osmerion/kotlin/semver/constraints/maven/MavenConstraintFormat.kt:59-99 | a constraint made of one group whose opener is not '[' and whose closer is not ']' parses as that group's exclusive predicate alone, with no preferred version, or fails with its error |
| MavenFormat.BareReadMeaning | src/commonMain/kotlin/com/osmerion/kotlin/semver/constraints/maven/MavenConstraintFormat.kt:100-106 | the bare branch reads the whole text as one descriptor: it yields that descriptor's soft minimum and its version, and fails with the descriptor's own error when it does not parse |
| MavenFormat.Parse | src/commonMain/kotlin/com/osmerion/kotlin/semver/constraints/maven/MavenConstraintFormat.kt:49-117 | the scanning loop returns exactly the specified scan of the text |
| MavenFormat.Single | src/commonMain/kotlin/com/osmerion/kotlin/semver/constraints/maven/MavenConstraintFormat.kt:120-121 | `single()` succeeds exactly on a one-element list, raising no-such-element on an empty one and illegal-argument on a longer one |
| MavenFormat.Singletons | src/commonMain/kotlin/com/osmerion/kotlin/semver/constraints/maven/MavenConstraintFormat.kt:89 | each predicate read is placed in a set of its own, in order |
| MavenFormat.TextsMeaning | src/commonMain/kotlin/com/osmerion/kotlin/semver/constraints/maven/MavenConstraintFormat.kt:120-121 | rendering fails exactly when some set is not a singleton, and otherwise renders each set's predicate in order |
| MavenFormat.RenderedShape | src/commonMain/kotlin/com/osmerion/kotlin/semver/constraints/maven/internal/predicates.kt:30-69 | a bracketed predicate renders as its opening bracket, its contents and its closing bracket |
| MavenFormat.RestrictionOfRendering | src/commonMain/kotlin/com/osmerion/kotlin/semver/constraints/maven/MavenConstraintFormat.kt:66-87 | the contents of a rendered group read back as the same predicate, and hold no closing bracket |
| MavenFormat.GroupOfRendering | src/commonMain/kotlin/com/osmerion/kotlin/semver/constraints/maven/MavenConstraintFormat.kt:59-87 | a rendered group found in the text reads back as its predicate, ending at its own closing bracket |
| MavenFormat.ScanGroups | src/commonMain/kotlin/com/osmerion/kotlin/semver/constraints/maven/MavenConstraintFormat.kt:57-99 | scanning a sequence of rendered groups separated by commas puts each predicate, in order, in a set of its own |
| MavenFormat.RenderingGroups | src/commonMain/kotlin/com/osmerion/kotlin/semver/constraints/maven/MavenConstraintFormat.kt:120-121 | the comma-joined rendering of bracketed predicates is a sequence of groups that read back as those predicates |
| MavenFormat.ParseToString | src/commonMain/kotlin/com/osmerion/kotlin/semver/constraints/maven/MavenConstraintFormat.kt:49-121 | parsing the rendering of bracketed predicates gives each back in a set of its own, with no preferred version |
| MavenFormat.ParseOfRendering | src/commonMain/kotlin/com/osmerion/kotlin/semver/constraints/maven/MavenConstraintFormat.kt:49-121 | the ","-joined renderings of bracketed predicates parse back to one set per predicate, in order, with no preferred version |
| MavenFormat.TrailingCommaRejected | src/commonMain/kotlin/com/osmerion/kotlin/semver/constraints/maven/MavenConstraintFormat.kt:90-112 | a comma after the last group leaves the parser expecting more, which is a constraint-format error |
| MavenFormat.TextAfterGroupRejected | src/commonMain/kotlin/com/osmerion/kotlin/semver/constraints/maven/MavenConstraintFormat.kt:90-113 | any character other than a comma after a group, a space included, is a constraint-format error |
| MavenFormat.UnclosedGroupRaises | src/commonMain/kotlin/com/osmerion/kotlin/semver/constraints/maven/MavenConstraintFormat.kt:60-136 | a group with no closing bracket after its opener makes the search read past the end and raise index-out-of-bounds |
| MavenFormat.RenderedAlone | src/commonMain/kotlin/com/osmerion/kotlin/semver/constraints/maven/MavenConstraintFormat.kt:120-121 | a single predicate renders as its own text |
| MavenFormat.BareDescriptor | src/commonMain/kotlin/com/osmerion/kotlin/semver/constraints/maven/MavenConstraintFormat.kt:100-108 | a bare descriptor whose numbers fit parses as a soft minimum that is also the preferred version, and renders as itself |
| MavenFormat.BareDescriptorAlone | src/commonMain/kotlin/com/osmerion/kotlin/semver/constraints/maven/MavenConstraintFormat.kt:100-108 | a bare descriptor cannot be followed by anything: the whole text is read as one descriptor, which fails at the comma |
| Legacy.Symbol | src/commonTest/kotlin/com/osmerion/kotlin/semver/ConstraintTests.kt:92-112 | each operator's symbol is one or two characters starting with '=', '!', '<' or '>', two exactly for "!=", "<=" and ">=" |
| Legacy.OppositeOpIsComplement | src/commonMain/kotlin/com/osmerion/kotlin/semver/constraints/Condition.kt:40-49 | the opposite operator accepts exactly the comparisons the operator rejects, taking the opposite twice gives the operator back, and no operator is its own opposite |
| Legacy.ConditionOpposite | src/commonMain/kotlin/com/osmerion/kotlin/semver/constraints/Condition.kt:29-49 | a condition's opposite is satisfied by exactly the versions the condition rejects |
| Legacy.RangeOpposite | src/commonMain/kotlin/com/osmerion/kotlin/semver/constraints/Range.kt:43-53 | the opposite of a range renders as the same range with the opposite operator |
| Legacy.RangeNotEqualIsComplement | src/commonMain/kotlin/com/osmerion/kotlin/semver/constraints/Range.kt:35-36 | a NOT_EQUAL range is satisfied by exactly the versions its EQUAL counterpart rejects |
| Legacy.RangeOppositeIsComplement | src/commonMain/kotlin/com/osmerion/kotlin/semver/constraints/Range.kt:33-51 | a range's opposite is satisfied by exactly the versions the range rejects, provided that for LT and GT (and their opposites) every version satisfies its start or its end |
| Legacy.RenderingReads | src/commonMain/kotlin/com/osmerion/kotlin/semver/constraints/Range.kt:53-63 | a range renders as a disjunction of conjunctions of conditions, and its opposite as the disjunction read off the opposite operator |
| Legacy.ReadingMeaning | src/commonMain/kotlin/com/osmerion/kotlin/semver/constraints/Range.kt:33-63 | for flat comparators, the text a comparator renders as holds for exactly the versions that satisfy it |
| Legacy.OppositeReadingMeaning | src/commonMain/kotlin/com/osmerion/kotlin/semver/constraints/Range.kt:33-63 | for flat comparators covered by their bounds, the text of the opposite holds for exactly the versions that do not satisfy the comparator |
| Legacy.OppositeNeedsCover | src/commonMain/kotlin/com/osmerion/kotlin/semver/constraints/Range.kt:37-51 | without the covering condition the opposite is no complement: ">2.0.0 <1.0.0" with LT is not satisfied by 1.5.0, and neither is its opposite |

## Left out

- The NPM constraint parser (`constraints/npm/internal/parser.kt` apart from `isX`, and `constraints/npm/NpmConstraintFormat.kt`) is not part of this model. It is a chain of regular-expression replacements and splits. The model starts from the predicates that parser builds.
- The serialization adapters are not part of this model. They only wrap `parse` and `toString`.
- The older string-processing constraint API is not part of this model: `SemanticVersionConstraint`, `ConditionProcessor`, `ComparatorBuilder`, `VersionDescriptor` and `ConstraintExtensions`. It is regex-driven and builds bounds from helpers defined in library files that are not part of this model. Only its `Condition` and `Range` comparators are modelled.
- The duplicate Maven scanner and predicates under `internal/constraints/formats/maven` are not part of this model. They depend on a descriptor conversion that is not defined there.
- nextPreRelease and `inc(PRE_RELEASE)` are not part of this model. They rely on pre-release increment operations that the modelled `PreRelease` does not have.
- Legacy.Symbol: the six-valued legacy operator enum is defined in a library file that is not part of this model. The model takes its symbols from the library's tests.
- Hashes: an enum constant's hash is the runtime's identity hash, so `Comparators.Hash` takes the operator hashes as a parameter. The model states only that hashes agree with equality. It does not state their values.
- Normalizer.SortRanges: the platform's sort is modelled as a stable insertion sort. Its failure is modelled as happening exactly when two ranges without a start have different ends. The real sort raises only if it happens to compare such a pair.
- The normalized ranges are computed by the normalizer function when a constraint is built. They are not stored as lazily initialized state.
- NPM predicates that are Kotlin data classes get structural equality from Dafny's datatypes. Only the comparator predicate's hand-written `equals` is modelled explicitly.
- MavenFormat.ParseToString covers bracketed predicates only. A soft minimum renders as a bare descriptor, which parses alone (`MavenFormat.BareDescriptor`) but cannot be joined with others (`MavenFormat.BareDescriptorAlone`).
- Legacy.ReadingMeaning and `Legacy.OppositeReadingMeaning` cover comparators whose range bounds are conditions. For a range nested inside a range, only `Legacy.RangeOppositeIsComplement` and `Legacy.RangeOpposite` apply.
- Legacy.RangeOppositeIsComplement: for LT and GT (and their opposites), a range's opposite is its complement only when every version satisfies its start or its end. `Legacy.OppositeNeedsCover` shows a range where this fails.
- The regular expressions of the version grammar are modelled as recognizers of the strings they match. Their capture groups are modelled, but backtracking and regex objects are not.
- Version numbers are unbounded naturals in the order and in `SmallestLarger`. 32-bit `Int` wrap-around is modelled where the code computes with it: `nextMajor`, `nextMinor` and `nextPatch`, hashes, and `toInt` on Maven numerals. As in the source, numeric pre-release parts beyond `Int` compare as text.
- CompareTo: returns the corrected comparison of pre-releases. As written, the loop ranks part "-1" below "0" and ties "-0" with "0".
- Compare (`PreReleases.Compare`, `PreReleases.ComparePart`, `PreReleases.CompareParts`) define the corrected order. `PreReleases.ComparePartAsWritten` is the order of the code.
- ComparePartZero: states that only identical parts compare as 0, which holds for the corrected order only. As written, "-0" and "0" compare as 0.
- ComparePartsZero: states that only identical part lists compare as 0, which holds for the corrected order only. As written, ["-0"] and ["0"] compare as 0.
- CompareIsTotalOrder: states a total order on pre-releases, which holds for the corrected order only. As written, the distinct pre-releases "-0" and "0" tie.
- ZeroIsLeastPart: states that "0" is the least part, which holds for the corrected order only. As written, "-1" is below it.
- AppendZeroIsSuccessor: states that appending "0" gives the next pre-release, which holds for the corrected order only. As written, appending "-1" gives one in between.
- SmallestLargerIsSuccessor (in `PreReleases` and in `Versions`): states that nothing lies strictly between a value and its smallest larger one, which holds for the corrected order only. As written, 1.0.0-a.-1 lies between 1.0.0-a and 1.0.0-a.0, and 1.0.1--1 between 1.0.0 and 1.0.1-0.
- MinIsLeast: states that pre-release "0" is the least pre-release, which holds for the corrected order only. As written, "-1" is below it.
- CompareZero: states that versions compare as 0 exactly when their numbers and pre-release parts are identical (build metadata aside), which holds for the corrected order only. As written, 1.0.0-0 and 1.0.0--0 compare as 0.
- CompareIsTotalPreorder: states that versions compare as 0 exactly when their precedence is identical, which holds for the corrected order only. As written, 1.0.0--0 and 1.0.0-0 compare as 0.
- EqualVersionsHashAlike: holds for the corrected order only. As written, 1.0.0-0 equals 1.0.0--0, but their pre-release texts "0" and "-0", and so their hashes, differ.
- OptEqualsIsEquivalence: is proved over the corrected pre-release order (see "## Findings"). As written, 1.0.0--0 equals 1.0.0-0 but hashes differently, because the pre-release hash is that of its text; this lemma does not cover that order.
- BelowZeroPreRelease: states which versions lie below x.y.z-0, which holds for the corrected order only. As written, x.y.z--1 lies below it as well.
- LeastIsLeast: states that 0.0.0-0 is the least version, which holds for the corrected order only. As written, 0.0.0--1 is below it.
- EqualsIsEquivalence (in `Comparators` and in `VersionConstraints`): is proved over the corrected pre-release order (see "## Findings"). As written, 1.0.0--0 equals 1.0.0-0 but hashes differently, because the pre-release hash is that of its text; this lemma does not cover that order.
- EqualPredicatesAgree: is proved over the corrected pre-release order (see "## Findings"). As written, 1.0.0--0 equals 1.0.0-0 but hashes differently, because the pre-release hash is that of its text; this lemma does not cover that order.
- SentinelIsEmpty: states that the sentinel range [null, 0.0.0-0) holds no version, which holds for the corrected order only. As written, it holds 0.0.0--1.
- RangeEqualsIsEquivalence: is proved over the corrected pre-release order (see "## Findings"). As written, 1.0.0--0 equals 1.0.0-0 but hashes differently, because the pre-release hash is that of its text; this lemma does not cover that order.
- NonEmptyMeansSomeVersion: is proved over the corrected pre-release order (see "## Findings"). As written, 1.0.0--1 sorts below 1.0.0-0, and this lemma does not cover that order.
- BoundsMeaning: is proved over the corrected pre-release order (see "## Findings"). As written, 1.0.0--1 sorts below 1.0.0-0, and this lemma does not cover that order.
- CandidateMeaning: is proved over the corrected pre-release order (see "## Findings"). As written, 1.0.0--1 sorts below 1.0.0-0, and this lemma does not cover that order.
- SplitAtMeaning: is proved over the corrected pre-release order (see "## Findings"). As written, 1.0.0--1 sorts below 1.0.0-0, and this lemma does not cover that order.
- SplitAllMeaning: is proved over the corrected pre-release order (see "## Findings"). As written, 1.0.0--1 sorts below 1.0.0-0, and this lemma does not cover that order.
- PiecesMeaning: is proved over the corrected pre-release order (see "## Findings"). As written, 1.0.0--1 sorts below 1.0.0-0, and this lemma does not cover that order.
- CandidatesMeaning: is proved over the corrected pre-release order (see "## Findings"). As written, 1.0.0--1 sorts below 1.0.0-0, and this lemma does not cover that order.
- NormalizeMeaning: is proved over the corrected pre-release order (see "## Findings"). As written, 1.0.0--1 sorts below 1.0.0-0, and this lemma does not cover that order.
- ParseMeaning: is proved over the corrected pre-release order (see "## Findings"). As written, 1.0.0--1 sorts below 1.0.0-0, and this lemma does not cover that order.
- EqualRangeListsHashAlike: is proved over the corrected pre-release order (see "## Findings"). As written, 1.0.0--0 equals 1.0.0-0 but hashes differently, because the pre-release hash is that of its text; this lemma does not cover that order.
- ConstraintMeaning: is proved over the corrected pre-release order (see "## Findings"). As written, 1.0.0--1 sorts below 1.0.0-0, and this lemma does not cover that order.
- ZeroPre: states that x.y.z-0 is the least version with the numbers x.y.z, which holds for the corrected order only. As written, x.y.z--1 is below it.
- OperatorEqualsAgree: is proved over the corrected pre-release order (see "## Findings"). As written, 1.0.0--1 sorts below 1.0.0-0, and this lemma does not cover that order.
- NothingBelowLeast: states that no version lies below 0.0.0-0, which holds for the corrected order only. As written, 0.0.0--1 does.
- BelowZeroPreRange: states which versions lie below a range that starts at x.y.z-0, which holds for the corrected order only. As written, x.y.z--1 lies below it as well.
- XRangeMeaning: is proved over the corrected pre-release order (see "## Findings"). As written, 1.0.0--1 sorts below 1.0.0-0, and this lemma does not cover that order.
- TildeMeaning: is proved over the corrected pre-release order (see "## Findings"). As written, 1.0.0--1 sorts below 1.0.0-0, and this lemma does not cover that order.
- CaretMeaning: is proved over the corrected pre-release order (see "## Findings"). As written, 1.0.0--1 sorts below 1.0.0-0, and this lemma does not cover that order.
- BelowHyphenEnd: is proved over the corrected pre-release order (see "## Findings"). As written, 1.0.0--1 sorts below 1.0.0-0, and this lemma does not cover that order.
- HyphenMeaning: is proved over the corrected pre-release order (see "## Findings"). As written, 1.0.0--1 sorts below 1.0.0-0, and this lemma does not cover that order.
- AtMostMeaning: is proved over the corrected pre-release order (see "## Findings"). As written, 1.0.0--1 sorts below 1.0.0-0, and this lemma does not cover that order.
- BelowMeaning: is proved over the corrected pre-release order (see "## Findings"). As written, 1.0.0--1 sorts below 1.0.0-0, and this lemma does not cover that order.
- AtLeastZeroPre: states that ">=x.y.z-0" admits exactly the versions whose numbers do not come before x.y.z, which holds for the corrected order only. As written, it leaves out x.y.z--1.
- AboveMeaning: is proved over the corrected pre-release order (see "## Findings"). As written, 1.0.0--1 sorts below 1.0.0-0, and this lemma does not cover that order.
- StartMeaning: is proved over the corrected pre-release order (see "## Findings"). As written, 1.0.0--1 sorts below 1.0.0-0, and this lemma does not cover that order.
- EndMeaning: is proved over the corrected pre-release order (see "## Findings"). As written, 1.0.0--1 sorts below 1.0.0-0, and this lemma does not cover that order.
- IntervalMeaning: is proved over the corrected pre-release order (see "## Findings"). As written, 1.0.0--1 sorts below 1.0.0-0, and this lemma does not cover that order.
- ExactMeaning: is proved over the corrected pre-release order (see "## Findings"). As written, 1.0.0--1 sorts below 1.0.0-0, and this lemma does not cover that order.
- CanonicalUnique: and the other `NormalForm` lemmas are proved over the corrected order, in which the sentinel range holds no version.
- SameMeaningSameRanges: requires that no collected range is inverted and that the two formulas agree on collecting a null start. A range [null, e) and a range [0.0.0-0, e) hold the same versions but are different ranges, and `NormalForm.NeqAtEndOrderMatters` shows an inverted range breaking uniqueness.
- ReorderedDisjunctsNormalizeAlike: requires that no range collected from the formula is inverted. The source's equality ignores the order of conjunctions only under that condition: `NormalForm.NeqAtEndOrderMatters` gives two orders of the same conjunctions whose normalized ranges differ.
- RegroupedPredicatesNormalizeAlike: requires that neither formula collects an inverted range and that both normalize without error. It does not state that the regrouped formula normalizes whenever the original does.
- ReorderedConstraintsEqual: requires that no range collected from the formula is inverted, for the reason given for `NormalForm.ReorderedDisjunctsNormalizeAlike`.
- Regex compilation, lazy initialization and thread safety are left out. They have no behaviour to verify.

## Findings

| source | as written | input that shows it | evidently intended | confidence | as-written member | corrected member |
|---|---|---|---|---|---|---|
| src/commonMain/kotlin/com/osmerion/kotlin/semver/internal/PreRelease.kt:61-62 | a part is treated as numeric when `toIntOrNull` accepts it, and that includes a leading '-' | parts "-1" and "0": "-1" sorts below "0", and "-0" ties with "0", although both are valid alphanumeric identifiers | only ASCII digit strings are numeric, so alphanumeric identifiers such as "-1" sort after every numeric one (SemVer 2.0.0 item 11.4) | not executed | PreReleases.HyphenPartsAsWritten | PreReleases.ComparePartFollowsSemVer |
