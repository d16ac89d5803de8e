/**
 * The textual grammar of versions: numeric identifiers, pre-release and build identifiers, and
 * the strict and loose version patterns, as a recognizer that returns the matched groups.
 */
module Patterns {
  import opened Wrappers
  import opened Strings

  /** A non-numeric pre-release identifier: `[0-9a-zA-Z-]` characters, at least one of them not a digit. */
  predicate IsNonNumericId(s: string) {
    |s| > 0 && AllIdentChars(s) && exists i :: 0 <= i < |s| && !IsDigit(s[i])
  }

  /** A pre-release part: a numeral without a leading zero, or a non-numeric identifier. */
  predicate IsPreReleasePart(s: string) { IsNumeral(s) || IsNonNumericId(s) }

  /** A build part: one or more `[0-9a-zA-Z-]` characters; leading zeros are allowed. */
  predicate IsBuildPart(s: string) { |s| > 0 && AllIdentChars(s) }

  /** Dot-separated pre-release parts. */
  predicate IsPreReleaseText(s: string) {
    var ps := Split(s, '.');
    forall i :: 0 <= i < |ps| ==> IsPreReleasePart(ps[i])
  }

  /** Dot-separated build parts. */
  predicate IsBuildText(s: string) {
    var ps := Split(s, '.');
    forall i :: 0 <= i < |ps| ==> IsBuildPart(ps[i])
  }

  /**
   * The groups of a version pattern match: the optional "v" prefix, the one to three core
   * numerals, the pre-release text after '-' and the build text after '+'.
   */
  datatype VersionMatch = VersionMatch(prefixed: bool, core: seq<string>, pre: Option<string>, build: Option<string>)

  /** The strict pattern wants exactly three numerals and no prefix; the loose one one to three. */
  predicate WellFormed(m: VersionMatch, strict: bool) {
    (if strict then !m.prefixed && |m.core| == 3 else 1 <= |m.core| <= 3)
    && (forall i :: 0 <= i < |m.core| ==> IsNumeral(m.core[i]))
    && (m.pre.Some? ==> IsPreReleaseText(m.pre.value))
    && (m.build.Some? ==> IsBuildText(m.build.value))
  }

  /** The text of the optional pre-release and build groups, with their '-' and '+' marks. */
  function SuffixText(pre: Option<string>, build: Option<string>): string {
    (if pre.Some? then "-" + pre.value else "") + (if build.Some? then "+" + build.value else "")
  }

  /** The text a match was made from. */
  function Render(m: VersionMatch): string {
    (if m.prefixed then "v" else "") + Join(m.core, '.') + SuffixText(m.pre, m.build)
  }

  /** Reads the pre-release and build groups off the text after the core. */
  function SplitSuffix(t: string): (r: (Option<string>, Option<string>))
    requires |t| == 0 || t[0] in {'-', '+'}
    ensures SuffixText(r.0, r.1) == t
  {
    if |t| > 0 && t[0] == '-' then
      var rest := t[1..];
      var j := IndexOfAny(rest, {'+'});
      IndexOfAnyMeaning(rest, {'+'});
      assert rest == rest[..j] + rest[j..];
      (Some(rest[..j]), if j < |rest| then Some(rest[j + 1..]) else None)
    else if |t| > 0 then
      (None, Some(t[1..]))
    else (None, None)
  }

  lemma {:induction false} SplitSuffixComplete(pre: Option<string>, build: Option<string>)
    requires pre.Some? ==> '+' !in pre.value
    ensures SplitSuffix(SuffixText(pre, build)) == (pre, build)
  {
    var buildText := if build.Some? then "+" + build.value else "";
    var t := SuffixText(pre, build);
    if build.Some? {
      assert buildText[0] == '+' && buildText[1..] == build.value;
    }
    if pre.Some? {
      var p := pre.value;
      assert t[1..] == p + buildText;
      IndexOfAnyAfter(p, buildText, {'+'});
      assert IndexOfAny(buildText, {'+'}) == 0 by {
        if |buildText| > 0 {
          assert buildText[0] == '+';
        }
      }
      assert t[1..][..|p|] == p;
      assert t[1..][|p|..] == buildText;
    } else {
      assert t == buildText;
    }
  }

  /**
   * Matching the whole of `s` against the strict or the loose version pattern. The core ends at
   * the first '-' or '+', the pre-release text at the first '+' after it.
   */
  function Match(s: string, strict: bool): (r: Option<VersionMatch>)
    ensures r.Some? ==> WellFormed(r.value, strict) && Render(r.value) == s
  {
    var m := Groups(s, strict);
    GroupsRendering(s, strict);
    if WellFormed(m, strict) then Some(m) else None
  }

  /** The candidate groups of `s`, before the groups are checked against the grammar. */
  function Groups(s: string, strict: bool): VersionMatch {
    var prefixed := !strict && |s| > 0 && s[0] == 'v';
    var body := if prefixed then s[1..] else s;
    var i := IndexOfAny(body, {'-', '+'});
    IndexOfAnyMeaning(body, {'-', '+'});
    var suffix := SplitSuffix(body[i..]);
    VersionMatch(prefixed, Split(body[..i], '.'), suffix.0, suffix.1)
  }

  /** The candidate groups render as the text they were read from. */
  lemma {:induction false} GroupsRendering(s: string, strict: bool)
    ensures Render(Groups(s, strict)) == s
  {
    var m := Groups(s, strict);
    var prefix := if m.prefixed then "v" else "";
    var body := if m.prefixed then s[1..] else s;
    var i := IndexOfAny(body, {'-', '+'});
    IndexOfAnyMeaning(body, {'-', '+'});
    var core := body[..i];
    JoinSplit(core, '.');
    assert Join(m.core, '.') == core;
    assert SuffixText(m.pre, m.build) == body[i..];
    assert body == core + body[i..];
    Associative(prefix, core, body[i..]);
    assert s == prefix + body;
  }

  lemma {:induction false} PreReleaseTextHasNoPlus(t: string)
    requires IsPreReleaseText(t)
    ensures '+' !in t
  {
    var ps := Split(t, '.');
    assert forall i :: 0 <= i < |ps| ==> '+' !in ps[i];
    SplitNoChar(t, '.', '+');
  }

  lemma {:induction false} NumeralsHaveNoSign(core: seq<string>)
    requires forall i :: 0 <= i < |core| ==> IsNumeral(core[i])
    ensures forall k :: 0 <= k < |Join(core, '.')| ==> Join(core, '.')[k] !in {'-', '+'}
  {
    assert forall i :: 0 <= i < |core| ==> '-' !in core[i] && '+' !in core[i];
    JoinNoChar(core, '.', '-');
    JoinNoChar(core, '.', '+');
  }

  /** Every well-formed match is found again in the text it renders to. */
  lemma {:induction false} MatchComplete(m: VersionMatch, strict: bool)
    requires WellFormed(m, strict)
    ensures Match(Render(m), strict) == Some(m)
  {
    var s := Render(m);
    var c := Join(m.core, '.');
    var t := SuffixText(m.pre, m.build);
    JoinFirst(m.core, '.');
    var body := c + t;
    assert s == (if m.prefixed then "v" else "") + body;
    assert (if !strict && |s| > 0 && s[0] == 'v' then s[1..] else s) == body;
    NumeralsHaveNoSign(m.core);
    IndexOfAnyAfter(c, t, {'-', '+'});
    assert IndexOfAny(body, {'-', '+'}) == |c| by {
      if |t| > 0 {
        assert t[0] in {'-', '+'};
      }
    }
    assert body[..|c|] == c && body[|c|..] == t;
    assert forall k :: 0 <= k < |m.core| ==> '.' !in m.core[k];
    SplitJoin(m.core, '.');
    if m.pre.Some? {
      PreReleaseTextHasNoPlus(m.pre.value);
    }
    SplitSuffixComplete(m.pre, m.build);
  }
}
