/**
 * The Maven constraint format: a bare descriptor ("1.0", a soft minimum that is also the
 * preferred version), or a comma-separated list of bracketed groups ("[1.0]", "(1.0,2.0]",
 * "[1.5,)"), each of which becomes a predicate set of its own. Parsing is a scan over the text;
 * rendering joins the predicates' renderings with ','.
 */
module MavenFormat {
  import opened Wrappers
  import opened Strings
  import V = Versions
  import D = MavenDescriptors
  import P = MavenPredicates

  /** What parsing yields: the predicate sets, and the preferred version if there is one. */
  datatype Parsed = Parsed(predicateSets: seq<seq<P.MavenPredicate>>, preferred: Option<V.Version>)

  /** The characters that open a group: '(' and '[' and, read as an exclusive '(', also ']'. */
  predicate IsOpener(c: char) { c == '(' || c == '[' || c == ']' }

  /** The characters that close a group: ')' and ']' and, read as an exclusive ')', also '['. */
  predicate IsCloser(c: char) { c == ')' || c == ']' || c == '[' }

  /**
   * The format's own `indexOfFirst` from index `i` on: it visits the indices up to and including
   * the length, so when no character matches, reading the index one past the end raises.
   */
  function FirstFrom(s: string, i: nat, p: char -> bool): (r: Result<int>)
    requires i <= |s|
    decreases |s| - i
  {
    if i == |s| then Err(IndexOutOfBounds)
    else if p(s[i]) then Ok(i)
    else FirstFrom(s, i + 1, p)
  }

  /** `indexOfFirst(startIndex, predicate)`: a negative start counts as 0; a start past the end gives -1. */
  function First(s: string, startIndex: int, p: char -> bool): Result<int> {
    var i := if startIndex < 0 then 0 else startIndex;
    if i > |s| then Ok(-1) else FirstFrom(s, i, p)
  }

  /**
   * From a start within the text, the search finds the first matching index at or after the
   * start, and raises exactly when there is none; -1 never comes back.
   */
  lemma {:induction false} FirstMeaning(s: string, start: nat, p: char -> bool)
    requires start <= |s|
    ensures First(s, start, p).Ok? ==> var k := First(s, start, p).value;
      start <= k < |s| && p(s[k]) && forall j :: start <= j < k ==> !p(s[j])
    ensures First(s, start, p).Err? <==> forall j :: start <= j < |s| ==> !p(s[j])
    ensures First(s, start, p).Err? ==> First(s, start, p).error == IndexOutOfBounds
    decreases |s| - start
  {
    if start < |s| && !p(s[start]) {
      FirstMeaning(s, start + 1, p);
      assert First(s, start, p) == First(s, start + 1, p);
    }
  }

  /** A found index lies between the start and the end of the text. */
  lemma {:induction false} FirstInRange(s: string, start: nat, p: char -> bool)
    requires start <= |s|
    ensures First(s, start, p).Ok? ==> start <= First(s, start, p).value < |s|
    decreases |s| - start
  {
    if start < |s| && !p(s[start]) {
      FirstInRange(s, start + 1, p);
      assert First(s, start, p) == First(s, start + 1, p);
    }
  }

  /** The search as a loop over the indices, stopping at the first match. */
  method IndexOfFirst(s: string, startIndex: int, p: char -> bool) returns (r: Result<int>)
    ensures r == First(s, startIndex, p)
  {
    var index := if startIndex < 0 then 0 else startIndex;
    if index > |s| {
      return Ok(-1);
    }
    while index < |s|
      invariant index <= |s|
      invariant FirstFrom(s, index, p) == First(s, startIndex, p)
      decreases |s| - index
    {
      if p(s[index]) {
        return Ok(index);
      }
      index := index + 1;
    }
    return Err(IndexOutOfBounds);
  }

  /** A bound of an interval: absent when its text is empty. */
  function OptDescriptor(text: string): Result<Option<D.Descriptor>> {
    if |text| > 0 then
      var d :- D.Parse(text);
      Ok(Some(d))
    else Ok(None)
  }

  /**
   * The contents of a group: with a comma, an interval of the trimmed texts around the first
   * comma; without one, an exact match of the contents, which needs both brackets inclusive.
   */
  function Restriction(restriction: string, lowerInclusive: bool, upperInclusive: bool): Result<P.MavenPredicate> {
    var comma := IndexOfAny(restriction, {','});
    if comma < |restriction| then
      var lowerString := if comma > 0 then Trim(restriction[..comma]) else "";
      var upperString := Trim(restriction[comma + 1..]);
      var lower :- OptDescriptor(lowerString);
      var upper :- OptDescriptor(upperString);
      P.Interval(lower, lowerInclusive, upper, upperInclusive)
    else if !lowerInclusive || !upperInclusive then Err(ConstraintFormat)
    else
      var d :- D.Parse(restriction);
      P.Construct(P.ExactVersionMatch(d))
  }

  /**
   * A group opened by `c` whose contents start at `pos`: it runs to the first closer, and '['
   * opening or ']' closing it makes that bound inclusive. Yields the predicate and the closer's
   * index.
   */
  function Group(source: string, c: char, pos: nat): (r: Result<(P.MavenPredicate, int)>)
    requires pos <= |source|
    ensures r.Ok? ==> pos <= r.value.1 < |source|
  {
    FirstInRange(source, pos, IsCloser);
    var endIndex :- First(source, pos, IsCloser);
    var found :- Restriction(source[pos..endIndex], c == '[', source[endIndex] == ']');
    Ok((found, endIndex))
  }

  /** The end of the scan: still expecting a group, or text left over, is a format error. */
  function Finish(source: string, pos: int, expectingMore: bool, sets: seq<seq<P.MavenPredicate>>, preferred: Option<V.Version>): Result<Parsed> {
    if expectingMore then Err(ConstraintFormat)
    else if pos < |source| then Err(ConstraintFormat)
    else Ok(Parsed(sets, preferred))
  }

  /** The scan from `pos`: at the end of the text, its end; otherwise one step from the character there. */
  function ScanFrom(source: string, pos: nat, expectingMore: bool, sets: seq<seq<P.MavenPredicate>>, preferred: Option<V.Version>): Result<Parsed>
    requires pos <= |source|
    decreases |source| - pos, 2
  {
    if pos == |source| then Finish(source, pos, expectingMore, sets, preferred)
    else ScanStep(source, pos, expectingMore, sets, preferred)
  }

  /**
   * One step of the scan: a group; any other character where no group is expected makes the
   * whole text one descriptor.
   */
  function ScanStep(source: string, pos: nat, expectingMore: bool, sets: seq<seq<P.MavenPredicate>>, preferred: Option<V.Version>): Result<Parsed>
    requires pos < |source|
    decreases |source| - pos, 1
  {
    if IsOpener(source[pos]) then GroupStep(source, pos, sets, preferred)
    else if expectingMore then Err(ConstraintFormat)
    else BareStep(source, pos, sets)
  }

  /** A group opened at `pos`, then either the end or a ',' and more. */
  function GroupStep(source: string, pos: nat, sets: seq<seq<P.MavenPredicate>>, preferred: Option<V.Version>): Result<Parsed>
    requires pos < |source|
    decreases |source| - pos, 0
  {
    var g :- Group(source, source[pos], pos + 1);
    AfterClose(source, g.1 + 1, sets + [[g.0]], preferred)
  }

  /** After a group's closer, at `next`: the end of the text or anything but a ',' ends the scan; a ',' asks for more. */
  function AfterClose(source: string, next: nat, sets: seq<seq<P.MavenPredicate>>, preferred: Option<V.Version>): Result<Parsed>
    requires next <= |source|
    decreases |source| - next + 1, 3
  {
    if next >= |source| || source[next] != ',' then Finish(source, next, false, sets, preferred)
    else ScanFrom(source, next + 1, true, sets, preferred)
  }

  /**
   * The whole text as one descriptor: a soft minimum, and the preferred version; the scan then
   * goes on from the end of the text.
   */
  function BareStep(source: string, pos: nat, sets: seq<seq<P.MavenPredicate>>): Result<Parsed>
    requires pos < |source|
    decreases |source| - pos, 0
  {
    var read :- BareRead(source);
    ScanFrom(source, |source|, false, sets + [[read.0]], Some(read.1))
  }

  /** The whole text read as one descriptor: the soft minimum it stands for, and its version. */
  function BareRead(source: string): Result<(P.MavenPredicate, V.Version)> {
    var d :- D.Parse(source);
    var minimum :- P.Construct(P.MinimumVersion(d));
    var v :- D.ToVersion(d, false);
    Ok((minimum, v))
  }

  /** One step of the scan over a group that was read: the end, or a ',' and the scan after it. */
  lemma {:induction false} ScanGroupStep(source: string, pos: nat, expectingMore: bool, sets: seq<seq<P.MavenPredicate>>, preferred: Option<V.Version>, found: P.MavenPredicate, endIndex: int)
    requires pos < |source| && IsOpener(source[pos])
    requires Group(source, source[pos], pos + 1) == Ok((found, endIndex)) && pos < endIndex < |source|
    ensures ScanFrom(source, pos, expectingMore, sets, preferred) == AfterClose(source, endIndex + 1, sets + [[found]], preferred)
  {
    assert ScanFrom(source, pos, expectingMore, sets, preferred) == ScanStep(source, pos, expectingMore, sets, preferred);
    assert ScanStep(source, pos, expectingMore, sets, preferred) == GroupStep(source, pos, sets, preferred);
    assert GroupStep(source, pos, sets, preferred) == AfterClose(source, endIndex + 1, sets + [[found]], preferred);
  }

  /** A group that was read closes after its opener and within the text. */
  lemma {:induction false} GroupBounds(source: string, pos: nat, found: P.MavenPredicate, endIndex: int)
    requires pos < |source| && Group(source, source[pos], pos + 1) == Ok((found, endIndex))
    ensures pos < endIndex < |source|
  {
  }

  /** One step of the scan over a group that could not be read. */
  lemma {:induction false} ScanGroupFails(source: string, pos: nat, expectingMore: bool, sets: seq<seq<P.MavenPredicate>>, preferred: Option<V.Version>)
    requires pos < |source| && IsOpener(source[pos])
    requires Group(source, source[pos], pos + 1).Err?
    ensures ScanFrom(source, pos, expectingMore, sets, preferred) == Err(Group(source, source[pos], pos + 1).error)
  {
    assert ScanFrom(source, pos, expectingMore, sets, preferred) == GroupStep(source, pos, sets, preferred);
  }

  /** One step of the scan over a character that opens no group. */
  lemma {:induction false} ScanBareStep(source: string, pos: nat, expectingMore: bool, sets: seq<seq<P.MavenPredicate>>, preferred: Option<V.Version>)
    requires pos < |source| && !IsOpener(source[pos])
    ensures ScanFrom(source, pos, expectingMore, sets, preferred)
      == if expectingMore then Err(ConstraintFormat)
         else
           var read :- BareRead(source);
           Ok(Parsed(sets + [[read.0]], Some(read.1)))
  {
    if !expectingMore {
      assert ScanFrom(source, pos, expectingMore, sets, preferred) == BareStep(source, pos, sets);
    }
  }

  /**
   * A group's contents with a comma: an interval whose bounds are read from the trimmed texts
   * before and after the first comma (an empty text reading as an absent bound), and whose
   * bounds are inclusive exactly as the brackets say.
   */
  lemma {:induction false} RestrictionWithComma(restriction: string, lowerInclusive: bool, upperInclusive: bool, k: nat)
    requires k < |restriction| && restriction[k] == ','
    requires forall j :: 0 <= j < k ==> restriction[j] != ','
    ensures var r := Restriction(restriction, lowerInclusive, upperInclusive);
      r.Ok? ==> r.value.IntervalVersionRange?
                && r.value.lowerBoundInclusive == lowerInclusive && r.value.upperBoundInclusive == upperInclusive
                && OptDescriptor(Trim(restriction[..k])) == Ok(r.value.lowerBound)
                && OptDescriptor(Trim(restriction[k + 1..])) == Ok(r.value.upperBound)
  {
    CommaTexts(restriction, k);
  }

  /** An interval whose lower or upper text is empty cannot have that bound inclusive: "[,1.0]" and "[1.0,]" are rejected. */
  lemma {:induction false} MissingBoundExclusive(restriction: string, lowerInclusive: bool, upperInclusive: bool, k: nat)
    requires k < |restriction| && restriction[k] == ','
    requires forall j :: 0 <= j < k ==> restriction[j] != ','
    ensures (Trim(restriction[..k]) == "" && lowerInclusive) || (Trim(restriction[k + 1..]) == "" && upperInclusive)
            ==> Restriction(restriction, lowerInclusive, upperInclusive).Err?
  {
    CommaTexts(restriction, k);
    assert OptDescriptor("") == Ok(None);
  }

  /** The first comma of the contents is at `k`, so the texts cut at it are those around `k`. */
  lemma {:induction false} CommaTexts(restriction: string, k: nat)
    requires k < |restriction| && restriction[k] == ','
    requires forall j :: 0 <= j < k ==> restriction[j] != ','
    ensures var comma := IndexOfAny(restriction, {','});
      comma == k && (if comma > 0 then Trim(restriction[..comma]) else "") == Trim(restriction[..k])
      && Trim(restriction[comma + 1..]) == Trim(restriction[k + 1..])
  {
    IndexOfAnyMeaning(restriction, {','});
    if k == 0 {
      assert restriction[..k] == "";
    }
  }

  /** A group's contents without a comma need '[' and ']': any exclusive bracket is a format error. */
  lemma {:induction false} ExactNeedsInclusive(restriction: string, lowerInclusive: bool, upperInclusive: bool)
    requires forall j :: 0 <= j < |restriction| ==> restriction[j] != ','
    requires !(lowerInclusive && upperInclusive)
    ensures Restriction(restriction, lowerInclusive, upperInclusive) == Err(ConstraintFormat)
  {
    IndexOfAnyMeaning(restriction, {','});
  }

  /**
   * A group's contents without a comma, between '[' and ']': an exact match of the whole
   * contents. A descriptor that cannot be read is that error, and one whose numbers fit always
   * gives the exact match.
   */
  lemma {:induction false} ExactMatchRead(restriction: string)
    requires forall j :: 0 <= j < |restriction| ==> restriction[j] != ','
    ensures D.Parse(restriction).Err? ==> Restriction(restriction, true, true) == Err(D.Parse(restriction).error)
    ensures Restriction(restriction, true, true).Ok?
            ==> D.Parse(restriction).Ok? && Restriction(restriction, true, true).value == P.ExactVersionMatch(D.Parse(restriction).value)
    ensures D.Parse(restriction).Ok? && D.Fits(D.Parse(restriction).value)
            ==> Restriction(restriction, true, true) == Ok(P.ExactVersionMatch(D.Parse(restriction).value))
  {
    IndexOfAnyMeaning(restriction, {','});
    if D.Parse(restriction).Ok? && D.Fits(D.Parse(restriction).value) {
      P.ExactIsInclusiveSingleton(D.Parse(restriction).value);
    }
  }

  /**
   * Text with no bracket in front is one descriptor: a soft minimum, with its version as the
   * preferred one. A descriptor that cannot be read is that error, and one whose numbers fit
   * always gives the minimum and its version.
   */
  lemma {:induction false} BareReadMeaning(source: string)
    ensures BareRead(source).Ok?
            ==> D.Parse(source).Ok? && BareRead(source).value.0 == P.MinimumVersion(D.Parse(source).value)
                && D.ToVersion(D.Parse(source).value, false) == Ok(BareRead(source).value.1)
    ensures D.Parse(source).Err? ==> BareRead(source) == Err(D.Parse(source).error)
    ensures D.Parse(source).Ok? && D.Fits(D.Parse(source).value)
            ==> BareRead(source) == Ok((P.MinimumVersion(D.Parse(source).value), D.VersionOf(D.Parse(source).value)))
  {
    if D.Parse(source).Ok? && D.Fits(D.Parse(source).value) {
      D.ToVersionMeaning(D.Parse(source).value);
    }
  }

  /**
   * A group runs to the first closer after its opener: the index it yields holds a closer and
   * none lies before it, and without a closer the search raises. The contents are read with the
   * lower bound inclusive exactly when '[' opened the group, the upper one exactly when ']'
   * closed it.
   */
  lemma {:induction false} GroupMeaning(source: string, c: char, pos: nat)
    requires pos <= |source|
    ensures Group(source, c, pos).Ok? ==> var e := Group(source, c, pos).value.1;
      IsCloser(source[e]) && (forall j :: pos <= j < e ==> !IsCloser(source[j]))
      && Restriction(source[pos..e], c == '[', source[e] == ']') == Ok(Group(source, c, pos).value.0)
    ensures (forall j :: pos <= j < |source| ==> !IsCloser(source[j])) ==> Group(source, c, pos) == Err(IndexOutOfBounds)
  {
    FirstMeaning(source, pos, IsCloser);
  }

  /** A group whose first closer is at `e` reads the contents before `e`, with the brackets' inclusiveness. */
  lemma {:induction false} GroupAt(source: string, c: char, pos: nat, e: nat)
    requires pos <= e < |source| && IsCloser(source[e])
    requires forall j :: pos <= j < e ==> !IsCloser(source[j])
    ensures var r := Restriction(source[pos..e], c == '[', source[e] == ']');
      Group(source, c, pos) == if r.Ok? then Ok((r.value, e)) else Err(r.error)
  {
    FirstAt(source, pos, e);
  }

  /** A group without a comma that is not "[...]" is a format error: an exact match needs both bounds inclusive. */
  lemma {:induction false} ExclusiveExactRejected(source: string, c: char, pos: nat, e: nat)
    requires pos <= e < |source| && IsCloser(source[e])
    requires forall j :: pos <= j < e ==> !IsCloser(source[j]) && source[j] != ','
    requires !(c == '[' && source[e] == ']')
    ensures Group(source, c, pos) == Err(ConstraintFormat)
  {
    ExactNeedsInclusive(source[pos..e], c == '[', source[e] == ']');
    GroupAt(source, c, pos, e);
  }

  /** Such a group at the start of the text makes the whole parse a format error, whatever follows it. */
  lemma {:induction false} ExclusiveExactParse(o: char, inner: string, c: char, rest: string)
    requires IsOpener(o) && IsCloser(c) && !(o == '[' && c == ']')
    requires forall j :: 0 <= j < |inner| ==> !IsCloser(inner[j]) && inner[j] != ','
    ensures ParseSpec([o] + inner + [c] + rest) == Err(ConstraintFormat)
  {
    var source := [o] + inner + [c] + rest;
    FramedText(source, o, inner, c, rest);
    ExclusiveExactRejected(source, o, 1, |inner| + 1);
    ScanGroupFails(source, 0, false, [], None);
  }

  /** The text "o inner c rest": its opener, its contents and its closer, and not blank. */
  lemma {:induction false} FramedText(source: string, o: char, inner: string, c: char, rest: string)
    requires source == [o] + inner + [c] + rest && IsOpener(o)
    ensures |inner| + 1 < |source| && source[0] == o && source[|inner| + 1] == c && source[1..|inner| + 1] == inner
    ensures forall j :: 1 <= j < |inner| + 1 ==> source[j] == inner[j - 1]
    ensures !IsBlank(source)
  {
    assert !IsWhitespace(source[0]);
  }

  /** ']' opening a group and '[' closing it read like '(' and ')': both bounds exclusive. */
  lemma {:induction false} ReversedBracketsExclusive(inner: string)
    requires forall j :: 0 <= j < |inner| ==> !IsCloser(inner[j])
    ensures ParseSpec("]" + inner + "[") == ParseSpec("(" + inner + ")")
    ensures var r := Restriction(inner, false, false);
      ParseSpec("(" + inner + ")") == if r.Ok? then Ok(Parsed([[r.value]], None)) else Err(r.error)
  {
    ExclusiveGroupAlone(']', inner, '[');
    ExclusiveGroupAlone('(', inner, ')');
  }

  /** A lone group with exclusive brackets parses to its contents read with both bounds exclusive. */
  lemma {:induction false} ExclusiveGroupAlone(o: char, inner: string, c: char)
    requires IsOpener(o) && o != '[' && IsCloser(c) && c != ']'
    requires forall j :: 0 <= j < |inner| ==> !IsCloser(inner[j])
    ensures var r := Restriction(inner, false, false);
      ParseSpec([o] + inner + [c]) == if r.Ok? then Ok(Parsed([[r.value]], None)) else Err(r.error)
  {
    var source := [o] + inner + [c];
    var e := |inner| + 1;
    FramedText(source, o, inner, c, []);
    GroupAt(source, o, 1, e);
    var r := Restriction(inner, false, false);
    if r.Ok? {
      ScanGroupStep(source, 0, false, [], None, r.value, e);
      AfterCloseAtEnd(source, [] + [[r.value]]);
      assert [] + [[r.value]] == [[r.value]];
    } else {
      ScanGroupFails(source, 0, false, [], None);
    }
  }

  /** After a closer that ends the text, the scan ends with what it has read. */
  lemma {:induction false} AfterCloseAtEnd(source: string, sets: seq<seq<P.MavenPredicate>>)
    ensures AfterClose(source, |source|, sets, None) == Ok(Parsed(sets, None))
  {
  }

  /** `parse`: blank text is a format error; otherwise the scan from the start. */
  function ParseSpec(source: string): Result<Parsed> {
    if IsBlank(source) then Err(ConstraintFormat)
    else ScanFrom(source, 0, false, [], None)
  }

  /** `parse` as the scanning loop it is: the result is the scan's. */
  method Parse(source: string) returns (r: Result<Parsed>)
    ensures r == ParseSpec(source)
  {
    if IsBlank(source) {
      return Err(ConstraintFormat);
    }
    var preferredVersion: Option<V.Version> := None;
    var predicateSets: seq<seq<P.MavenPredicate>> := [];
    var pos := 0;
    var expectingMore := false;
    while pos < |source|
      invariant pos <= |source|
      invariant ScanFrom(source, pos, expectingMore, predicateSets, preferredVersion) == ParseSpec(source)
      decreases |source| - pos
    {
      var c := source[pos];
      if IsOpener(c) {
        var g := Group(source, c, pos + 1);
        if g.Err? {
          ScanGroupFails(source, pos, expectingMore, predicateSets, preferredVersion);
          return Err(g.error);
        }
        var (found, endIndex) := g.value;
        GroupBounds(source, pos, found, endIndex);
        ScanGroupStep(source, pos, expectingMore, predicateSets, preferredVersion, found, endIndex);
        predicateSets := predicateSets + [[found]];
        pos := endIndex + 1;
        if pos >= |source| || source[pos] != ',' {
          expectingMore := false;
          break;
        }
        pos := pos + 1;
        expectingMore := true;
      } else {
        ScanBareStep(source, pos, expectingMore, predicateSets, preferredVersion);
        if expectingMore {
          return Err(ConstraintFormat);
        }
        var read := BareRead(source);
        if read.Err? {
          return Err(read.error);
        }
        predicateSets := predicateSets + [[read.value.0]];
        preferredVersion := Some(read.value.1);
        pos := |source|;
      }
    }
    return Finish(source, pos, expectingMore, predicateSets, preferredVersion);
  }

  /** `single()`: the one element of a list; an empty list or a longer one raises. */
  function Single<T>(xs: seq<T>): (r: Result<T>)
    ensures r.Ok? <==> |xs| == 1
    ensures r.Err? ==> r.error == (if |xs| == 0 then NoSuchElement else IllegalArgument)
  {
    if |xs| == 0 then Err(NoSuchElement)
    else if |xs| > 1 then Err(IllegalArgument)
    else Ok(xs[0])
  }

  /** The renderings of the predicate sets, in order; the first set that is not a singleton raises. */
  function Texts(sets: seq<seq<P.MavenPredicate>>): Result<seq<string>> {
    if |sets| == 0 then Ok([])
    else
      var p :- Single(sets[0]);
      var rest :- Texts(sets[1..]);
      Ok([P.ToString(p)] + rest)
  }

  /** `toString`: the renderings joined with ','. */
  function ToString(sets: seq<seq<P.MavenPredicate>>): Result<string> {
    var texts :- Texts(sets);
    Ok(Join(texts, ','))
  }

  /** Each predicate in a set of its own. */
  function Singletons(ps: seq<P.MavenPredicate>): (r: seq<seq<P.MavenPredicate>>)
    ensures |r| == |ps| && forall i :: 0 <= i < |ps| ==> r[i] == [ps[i]]
  {
    if |ps| == 0 then [] else [[ps[0]]] + Singletons(ps[1..])
  }

  function RenderAll(ps: seq<P.MavenPredicate>): (r: seq<string>)
    ensures |r| == |ps| && forall i :: 0 <= i < |ps| ==> r[i] == P.ToString(ps[i])
  {
    if |ps| == 0 then [] else [P.ToString(ps[0])] + RenderAll(ps[1..])
  }

  /** Rendering fails exactly when some set is not a singleton, and renders each singleton's predicate. */
  lemma {:induction false} TextsMeaning(sets: seq<seq<P.MavenPredicate>>)
    ensures Texts(sets).Ok? <==> forall i :: 0 <= i < |sets| ==> |sets[i]| == 1
    ensures Texts(sets).Ok? ==> (|Texts(sets).value| == |sets|
      && forall i :: 0 <= i < |sets| ==> Texts(sets).value[i] == P.ToString(sets[i][0]))
  {
    if |sets| > 0 {
      TextsMeaning(sets[1..]);
      assert forall i :: 1 <= i < |sets| ==> sets[i] == sets[1..][i - 1];
    }
  }

  /** The predicates parsing reads from brackets: well-formed descriptors, an inclusive bound only where there is one, and a range that was constructed. */
  predicate Bracketed(p: P.MavenPredicate) {
    match p
    case ExactVersionMatch(d) => D.WellFormed(d) && P.Range(p).Ok?
    case IntervalVersionRange(l, li, u, ui) =>
      (l.Some? ==> D.WellFormed(l.value)) && (u.Some? ==> D.WellFormed(u.value))
      && !(l.None? && li) && !(u.None? && ui) && P.Range(p).Ok?
    case MinimumVersion(_) => false
  }

  predicate AllBracketed(ps: seq<P.MavenPredicate>) {
    forall i :: 0 <= i < |ps| ==> Bracketed(ps[i])
  }

  function OpenerOf(p: P.MavenPredicate): char {
    if p.ExactVersionMatch? || (p.IntervalVersionRange? && p.lowerBoundInclusive) then '[' else '('
  }

  function CloserOf(p: P.MavenPredicate): char {
    if p.ExactVersionMatch? || (p.IntervalVersionRange? && p.upperBoundInclusive) then ']' else ')'
  }

  function BoundText(d: Option<D.Descriptor>): string {
    if d.Some? then D.ToString(d.value) else ""
  }

  function Inner(p: P.MavenPredicate): string {
    match p
    case ExactVersionMatch(d) => D.ToString(d)
    case IntervalVersionRange(l, _, u, _) => BoundText(l) + "," + BoundText(u)
    case MinimumVersion(d) => D.ToString(d)
  }

  lemma {:induction false} RenderedShape(p: P.MavenPredicate)
    requires !p.MinimumVersion?
    ensures P.ToString(p) == [OpenerOf(p)] + Inner(p) + [CloserOf(p)]
  {
    match p
    case ExactVersionMatch(d) =>
      assert "[" == [OpenerOf(p)] && "]" == [CloserOf(p)];
      assert P.ToString(p) == "[" + D.ToString(d) + "]";
    case IntervalVersionRange(l, li, u, ui) =>
      var o: string := if li then "[" else "(";
      var c: string := if ui then "]" else ")";
      var lt, ut := BoundText(l), BoundText(u);
      assert o == [OpenerOf(p)] && c == [CloserOf(p)];
      assert P.ToString(p) == o + lt + "," + ut + c;
      assert o + lt + "," + ut + c == o + (lt + "," + ut) + c;
  }

  /** Plain text holds no whitespace, no comma and no closer. */
  lemma {:induction false} PlainIsQuiet(s: string)
    requires D.PlainChars(s)
    ensures forall k :: 0 <= k < |s| ==> !IsWhitespace(s[k]) && s[k] != ',' && !IsCloser(s[k])
  {
  }

  /** A bound's text is plain, and empty exactly when the bound is absent. */
  lemma {:induction false} BoundTextPlain(d: Option<D.Descriptor>)
    requires d.Some? ==> D.WellFormed(d.value)
    ensures D.PlainChars(BoundText(d)) && (|BoundText(d)| > 0 <==> d.Some?)
    ensures forall k :: 0 <= k < |BoundText(d)| ==> !IsWhitespace(BoundText(d)[k]) && BoundText(d)[k] != ',' && !IsCloser(BoundText(d)[k])
    ensures Trim(BoundText(d)) == BoundText(d)
    ensures OptDescriptor(BoundText(d)) == Ok(d)
  {
    if d.Some? {
      D.RenderedChars(d.value);
      D.ParseToString(d.value);
    }
    PlainIsQuiet(BoundText(d));
    TrimNoWhitespace(BoundText(d));
  }

  /** The contents of a rendered group read back as its predicate. */
  lemma {:induction false} RestrictionOfRendering(p: P.MavenPredicate)
    requires Bracketed(p)
    ensures Restriction(Inner(p), OpenerOf(p) == '[', CloserOf(p) == ']') == Ok(p)
    ensures forall k :: 0 <= k < |Inner(p)| ==> !IsCloser(Inner(p)[k])
  {
    match p
    case ExactVersionMatch(d) =>
      BoundTextPlain(Some(d));
      IndexOfAnyAfter(D.ToString(d), "", {','});
      assert D.ToString(d) + "" == D.ToString(d);
    case IntervalVersionRange(l, li, u, ui) =>
      RestrictionOfInterval(l, li, u, ui);
  }

  /** The contents of a rendered interval: the bounds' texts around a comma, read back as the bounds. */
  lemma {:induction false} RestrictionOfInterval(l: Option<D.Descriptor>, li: bool, u: Option<D.Descriptor>, ui: bool)
    requires Bracketed(P.IntervalVersionRange(l, li, u, ui))
    ensures var inner := BoundText(l) + "," + BoundText(u);
      Restriction(inner, li, ui) == Ok(P.IntervalVersionRange(l, li, u, ui))
      && forall k :: 0 <= k < |inner| ==> !IsCloser(inner[k])
  {
    var lt := BoundText(l);
    var ut := BoundText(u);
    var inner := lt + "," + ut;
    BoundTextPlain(l);
    BoundTextPlain(u);
    CommaSplit(lt, ut);
    BoundsAroundComma(inner, lt, ut);
    assert P.Interval(l, li, u, ui) == Ok(P.IntervalVersionRange(l, li, u, ui));
    NoCloserConcat(lt, ",");
    NoCloserConcat(lt + ",", ut);
  }

  /** The texts an interval's contents are cut into at its first comma. */
  lemma {:induction false} BoundsAroundComma(inner: string, lt: string, ut: string)
    requires IndexOfAny(inner, {','}) == |lt| < |inner|
    requires inner[..|lt|] == lt && inner[|lt| + 1..] == ut
    requires Trim(lt) == lt && Trim(ut) == ut
    ensures var comma := IndexOfAny(inner, {','});
      (if comma > 0 then Trim(inner[..comma]) else "") == lt && Trim(inner[comma + 1..]) == ut
  {
  }

  /** The first comma of "a,b" where `a` has none is the one after `a`. */
  lemma {:induction false} CommaSplit(a: string, b: string)
    requires forall k :: 0 <= k < |a| ==> a[k] != ','
    ensures IndexOfAny(a + "," + b, {','}) == |a|
    ensures (a + "," + b)[..|a|] == a && (a + "," + b)[|a| + 1..] == b
  {
    assert a + "," + b == a + ("," + b);
    IndexOfAnyAfter(a, "," + b, {','});
  }

  /** Text without closers stays without when put together. */
  lemma {:induction false} NoCloserConcat(a: string, b: string)
    requires forall k :: 0 <= k < |a| ==> !IsCloser(a[k])
    requires forall k :: 0 <= k < |b| ==> !IsCloser(b[k])
    ensures forall k :: 0 <= k < |a + b| ==> !IsCloser((a + b)[k])
  {
    forall k | 0 <= k < |a + b|
      ensures !IsCloser((a + b)[k])
    {
      if k >= |a| {
        assert (a + b)[k] == b[k - |a|];
      }
    }
  }

  /** The search finds a closer that has no closer before it. */
  lemma {:induction false} FirstAt(s: string, start: nat, k: nat)
    requires start <= k < |s| && IsCloser(s[k])
    requires forall j :: start <= j < k ==> !IsCloser(s[j])
    ensures First(s, start, IsCloser) == Ok(k)
  {
    FirstMeaning(s, start, IsCloser);
  }

  /** A rendered group in the text reads back as its predicate, ending at its closer. */
  lemma {:induction false} GroupOfRendering(source: string, pos: nat, p: P.MavenPredicate) returns (e: nat)
    requires Bracketed(p)
    requires pos + |P.ToString(p)| <= |source| && source[pos..pos + |P.ToString(p)|] == P.ToString(p)
    ensures e == pos + |P.ToString(p)| - 1
    ensures IsOpener(source[pos])
    ensures Group(source, source[pos], pos + 1) == Ok((p, e))
  {
    e := RenderingFrame(source, pos, p);
    GroupReads(source, pos, e, p);
  }

  /** A rendering found at `pos`: its opener there, its contents after it, and its closer, the first one, at `e`. */
  lemma {:induction false} RenderingFrame(source: string, pos: nat, p: P.MavenPredicate) returns (e: nat)
    requires Bracketed(p)
    requires pos + |P.ToString(p)| <= |source| && source[pos..pos + |P.ToString(p)|] == P.ToString(p)
    ensures e == pos + |P.ToString(p)| - 1 && pos < e < |source|
    ensures IsOpener(source[pos]) && source[pos] == OpenerOf(p) && source[e] == CloserOf(p)
    ensures source[pos + 1..e] == Inner(p)
    ensures First(source, pos + 1, IsCloser) == Ok(e)
  {
    var t := P.ToString(p);
    var inner := Inner(p);
    var o, c := OpenerOf(p), CloserOf(p);
    e := pos + |t| - 1;
    assert t == [o] + inner + [c] by {
      RenderedShape(p);
    }
    InnerHasNoCloser(p);
    assert IsOpener(o) && IsCloser(c);
    assert source[pos] == o && source[e] == c && source[pos + 1..e] == inner
      && forall j :: pos + 1 <= j < e ==> !IsCloser(source[j]) by {
      Framed(source, pos, e, t, o, inner, c);
    }
    FirstAt(source, pos + 1, e);
  }

  /** The contents of a rendered group hold no closer. */
  lemma {:induction false} InnerHasNoCloser(p: P.MavenPredicate)
    requires Bracketed(p)
    ensures forall k :: 0 <= k < |Inner(p)| ==> !IsCloser(Inner(p)[k])
  {
    match p
    case ExactVersionMatch(d) =>
      BoundTextPlain(Some(d));
    case IntervalVersionRange(l, _, u, _) =>
      BoundTextPlain(l);
      BoundTextPlain(u);
      NoCloserConcat(BoundText(l), ",");
      NoCloserConcat(BoundText(l) + ",", BoundText(u));
  }

  /** A group framed by a rendered predicate's brackets, its closer the first one, reads back as the predicate. */
  lemma {:induction false} GroupReads(source: string, pos: nat, e: nat, p: P.MavenPredicate)
    requires Bracketed(p)
    requires pos < e < |source| && source[pos] == OpenerOf(p) && source[e] == CloserOf(p)
    requires source[pos + 1..e] == Inner(p)
    requires First(source, pos + 1, IsCloser) == Ok(e)
    ensures Group(source, source[pos], pos + 1) == Ok((p, e))
  {
    RestrictionOfRendering(p);
  }

  /** Text "o inner c" found at `pos` and ending at `e`: the opener at `pos`, the contents after it, the closer at `e`. */
  lemma {:induction false} Framed(source: string, pos: nat, e: nat, t: string, o: char, inner: string, c: char)
    requires t == [o] + inner + [c] && e == pos + |inner| + 1
    requires e < |source| && source[pos..e + 1] == t
    requires forall k :: 0 <= k < |inner| ==> !IsCloser(inner[k])
    ensures source[pos] == o && source[e] == c
    ensures source[pos + 1..e] == inner
    ensures forall j :: pos + 1 <= j < e ==> !IsCloser(source[j])
  {
    InText(source, pos, t);
    assert t[0] == o && t[|t| - 1] == c;
    forall j | pos + 1 <= j < e
      ensures source[j] == inner[j - pos - 1]
    {
      assert t[j - pos] == inner[j - pos - 1];
    }
    assert source[pos + 1..e] == inner;
  }

  /** Text found at `pos` in the source, character by character. */
  lemma {:induction false} InText(source: string, pos: nat, t: string)
    requires pos + |t| <= |source| && source[pos..pos + |t|] == t
    ensures forall k :: 0 <= k < |t| ==> source[pos + k] == t[k]
  {
    forall k | 0 <= k < |t|
      ensures source[pos + k] == t[k]
    {
      assert source[pos..pos + |t|][k] == source[pos + k];
    }
  }

  /** How the scan goes on after the text of some groups ends at `q`: the end, a ',' and more, or a format error. */
  function AfterRendering(source: string, q: nat, sets: seq<seq<P.MavenPredicate>>): Result<Parsed>
    requires q <= |source|
  {
    if q == |source| then Ok(Parsed(sets, None))
    else if source[q] != ',' then Err(ConstraintFormat)
    else ScanFrom(source, q + 1, true, sets, None)
  }

  /** The rendering of two or more predicates: the first, a ',', and the rendering of the rest. */
  lemma {:induction false} JoinStep(ps: seq<P.MavenPredicate>)
    requires |ps| > 1
    ensures Join(RenderAll(ps), ',') == P.ToString(ps[0]) + "," + Join(RenderAll(ps[1..]), ',')
  {
    assert RenderAll(ps)[1..] == RenderAll(ps[1..]);
  }

  /**
   * The text from `pos` up to `end` is groups that read back as `ps`, in order, with a ','
   * between each two and none after the last.
   */
  predicate GroupsAt(source: string, pos: nat, ps: seq<P.MavenPredicate>, end: nat)
    decreases |ps|, 3
  {
    |ps| > 0 && pos < end <= |source| && OpensAt(source, pos, ps, end)
  }

  /** A group opens at `pos`, and the groups from there read back as `ps`. */
  predicate OpensAt(source: string, pos: nat, ps: seq<P.MavenPredicate>, end: nat)
    requires |ps| > 0 && pos < |source| && end <= |source|
    decreases |ps|, 2
  {
    IsOpener(source[pos]) && GroupsFrom(source, pos, ps, end)
  }

  /** The first group reads back as `ps[0]`, and the rest follow its closer. */
  predicate GroupsFrom(source: string, pos: nat, ps: seq<P.MavenPredicate>, end: nat)
    requires |ps| > 0 && pos < |source| && end <= |source|
    decreases |ps|, 1
  {
    match Group(source, source[pos], pos + 1)
    case Err(_) => false
    case Ok((p, e)) => p == ps[0] && GroupsAfter(source, e + 1, ps, end)
  }

  /** After the closer of the group of `ps[0]`, at `next`: the end if it was the last, otherwise a ',' and groups of the rest. */
  predicate GroupsAfter(source: string, next: int, ps: seq<P.MavenPredicate>, end: nat)
    requires |ps| > 0 && end <= |source|
    decreases |ps|, 0
  {
    if |ps| == 1 then next == end
    else 0 <= next < end && source[next] == ',' && GroupsAt(source, next + 1, ps[1..], end)
  }

  /** Scanning groups that read back as `ps` puts each of them, in order, in a set of its own. */
  lemma {:induction false} ScanGroups(source: string, pos: nat, expectingMore: bool, sets: seq<seq<P.MavenPredicate>>, ps: seq<P.MavenPredicate>, end: nat)
    requires GroupsAt(source, pos, ps, end)
    ensures ScanFrom(source, pos, expectingMore, sets, None) == AfterRendering(source, end, sets + Singletons(ps))
    decreases |ps|, 1
  {
    var next := ScanFirstGroup(source, pos, expectingMore, sets, ps, end);
    if |ps| > 1 {
      ScanMoreGroups(source, pos, expectingMore, sets, ps, end, next);
    }
  }

  /** Scanning two or more groups: on from the first to the rest after its ','. */
  lemma {:induction false} ScanMoreGroups(source: string, pos: nat, expectingMore: bool, sets: seq<seq<P.MavenPredicate>>, ps: seq<P.MavenPredicate>, end: nat, next: nat)
    requires |ps| > 1 && pos <= |source| && next + 1 <= |source| && GroupsAt(source, next + 1, ps[1..], end)
    requires ScanFrom(source, pos, expectingMore, sets, None) == ScanFrom(source, next + 1, true, sets + [[ps[0]]], None)
    requires sets + [[ps[0]]] + Singletons(ps[1..]) == sets + Singletons(ps)
    ensures ScanFrom(source, pos, expectingMore, sets, None) == AfterRendering(source, end, sets + Singletons(ps))
    decreases |ps|, 0
  {
    ScanGroups(source, next + 1, true, sets + [[ps[0]]], ps[1..], end);
  }

  /** The scan over the first of the groups: the end of the groups, or on to the rest after its ','. */
  lemma {:induction false} ScanFirstGroup(source: string, pos: nat, expectingMore: bool, sets: seq<seq<P.MavenPredicate>>, ps: seq<P.MavenPredicate>, end: nat) returns (next: nat)
    requires GroupsAt(source, pos, ps, end)
    ensures |ps| == 1 ==> ScanFrom(source, pos, expectingMore, sets, None) == AfterRendering(source, end, sets + Singletons(ps))
    ensures |ps| > 1 ==> (next + 1 <= |source| && GroupsAt(source, next + 1, ps[1..], end)
      && ScanFrom(source, pos, expectingMore, sets, None) == ScanFrom(source, next + 1, true, sets + [[ps[0]]], None)
      && sets + [[ps[0]]] + Singletons(ps[1..]) == sets + Singletons(ps))
  {
    var e := ScanOverFirst(source, pos, expectingMore, sets, ps, end);
    next := e + 1;
    if |ps| == 1 {
      AfterCloseRendering(source, next, sets + [[ps[0]]]);
      assert Singletons(ps) == [[ps[0]]];
    } else {
      SingletonsStep(sets, ps);
    }
  }

  /** The scan over the first of the groups reaches its closer; what follows is as the groups say. */
  lemma {:induction false} ScanOverFirst(source: string, pos: nat, expectingMore: bool, sets: seq<seq<P.MavenPredicate>>, ps: seq<P.MavenPredicate>, end: nat) returns (e: int)
    requires GroupsAt(source, pos, ps, end)
    ensures pos < e < |source| && |ps| > 0 && end <= |source|
    ensures ScanFrom(source, pos, expectingMore, sets, None) == AfterClose(source, e + 1, sets + [[ps[0]]], None)
    ensures GroupsAfter(source, e + 1, ps, end)
  {
    e := FirstGroup(source, pos, ps, end);
    GroupBounds(source, pos, ps[0], e);
    ScanGroupStep(source, pos, expectingMore, sets, None, ps[0], e);
  }

  /** After the last closer, the scan and the rendering agree. */
  lemma {:induction false} AfterCloseRendering(source: string, q: nat, sets: seq<seq<P.MavenPredicate>>)
    requires q <= |source|
    ensures AfterClose(source, q, sets, None) == AfterRendering(source, q, sets)
  {
  }

  /** The first of the groups: where it ends, and what follows it. */
  lemma {:induction false} FirstGroup(source: string, pos: nat, ps: seq<P.MavenPredicate>, end: nat) returns (e: int)
    requires GroupsAt(source, pos, ps, end)
    ensures pos < |source| && IsOpener(source[pos]) && Group(source, source[pos], pos + 1) == Ok((ps[0], e))
    ensures |ps| > 0 && end <= |source| && GroupsAfter(source, e + 1, ps, end)
  {
    assert OpensAt(source, pos, ps, end);
    assert GroupsFrom(source, pos, ps, end);
    e := Group(source, source[pos], pos + 1).value.1;
  }

  lemma {:induction false} SingletonsStep(sets: seq<seq<P.MavenPredicate>>, ps: seq<P.MavenPredicate>)
    requires |ps| > 0
    ensures sets + [[ps[0]]] + Singletons(ps[1..]) == sets + Singletons(ps)
  {
    Associative(sets, [[ps[0]]], Singletons(ps[1..]));
  }

  /** The rendering of bracketed predicates, found at `pos` and ending at `end`, is groups that read back as them. */
  lemma {:induction false} RenderingGroups(source: string, pos: nat, ps: seq<P.MavenPredicate>, end: nat)
    requires |ps| > 0 && AllBracketed(ps)
    requires end == pos + |Join(RenderAll(ps), ',')| && end <= |source|
    requires source[pos..end] == Join(RenderAll(ps), ',')
    ensures GroupsAt(source, pos, ps, end)
    decreases |ps|
  {
    var e := RenderingFirst(source, pos, ps, end);
    RenderingTail(source, pos, ps, e, end);
    if |ps| > 1 {
      RenderingGroups(source, e + 2, ps[1..], end);
    }
    assert GroupsAfter(source, e + 1, ps, end);
  }

  /** The first group of a rendering reads back as its first predicate, so what follows it decides the rest. */
  lemma {:induction false} RenderingFirst(source: string, pos: nat, ps: seq<P.MavenPredicate>, end: nat) returns (e: nat)
    requires |ps| > 0 && AllBracketed(ps)
    requires end == pos + |Join(RenderAll(ps), ',')| && end <= |source|
    requires source[pos..end] == Join(RenderAll(ps), ',')
    ensures e == pos + |P.ToString(ps[0])| - 1
    ensures GroupsAfter(source, e + 1, ps, end) ==> GroupsAt(source, pos, ps, end)
  {
    RenderingHead(source, pos, ps, end);
    e := GroupOfRendering(source, pos, ps[0]);
    if GroupsAfter(source, e + 1, ps, end) {
      GroupsCons(source, pos, ps, e, end);
    }
  }

  /** A rendering starts with the text of its first predicate. */
  lemma {:induction false} RenderingHead(source: string, pos: nat, ps: seq<P.MavenPredicate>, end: nat)
    requires |ps| > 0 && AllBracketed(ps)
    requires end == pos + |Join(RenderAll(ps), ',')| && end <= |source|
    requires source[pos..end] == Join(RenderAll(ps), ',')
    ensures pos + |P.ToString(ps[0])| <= |source| && source[pos..pos + |P.ToString(ps[0])|] == P.ToString(ps[0])
    ensures pos < end
  {
    RenderingNotBlank(ps);
    RenderingTail(source, pos, ps, pos + |P.ToString(ps[0])| - 1, end);
  }

  /** Where the first group of a rendering ends, and what follows it. */
  lemma {:induction false} RenderingTail(source: string, pos: nat, ps: seq<P.MavenPredicate>, e: int, end: nat)
    requires |ps| > 0 && AllBracketed(ps) && e == pos + |P.ToString(ps[0])| - 1
    requires end == pos + |Join(RenderAll(ps), ',')| && end <= |source|
    requires source[pos..end] == Join(RenderAll(ps), ',')
    ensures pos + |P.ToString(ps[0])| <= |source| && source[pos..pos + |P.ToString(ps[0])|] == P.ToString(ps[0])
    ensures |ps| == 1 ==> e + 1 == end
    ensures |ps| > 1 ==> (e + 1 < end && source[e + 1] == ','
      && AllBracketed(ps[1..]) && end == e + 2 + |Join(RenderAll(ps[1..]), ',')|
      && source[e + 2..end] == Join(RenderAll(ps[1..]), ','))
  {
    if |ps| == 1 {
      assert Join(RenderAll(ps), ',') == P.ToString(ps[0]);
    } else {
      FirstAndRest(source, pos, ps, e, end);
      AllBracketedTail(ps);
    }
  }

  /** The rendering of two or more predicates at `pos`: the first one's text, a ',' at `e + 1`, and the rest's rendering. */
  lemma {:induction false} FirstAndRest(source: string, pos: nat, ps: seq<P.MavenPredicate>, e: int, end: nat)
    requires |ps| > 1 && e == pos + |P.ToString(ps[0])| - 1
    requires end == pos + |Join(RenderAll(ps), ',')| && end <= |source|
    requires source[pos..end] == Join(RenderAll(ps), ',')
    ensures source[pos..pos + |P.ToString(ps[0])|] == P.ToString(ps[0]) && source[e + 1] == ','
    ensures end == e + 2 + |Join(RenderAll(ps[1..]), ',')| && source[e + 2..end] == Join(RenderAll(ps[1..]), ',')
  {
    JoinStep(ps);
    CommaAt(source, pos, P.ToString(ps[0]), Join(RenderAll(ps[1..]), ','), e, end);
  }

  lemma {:induction false} AllBracketedTail(ps: seq<P.MavenPredicate>)
    requires |ps| > 0 && AllBracketed(ps)
    ensures AllBracketed(ps[1..])
  {
    forall i | 0 <= i < |ps[1..]|
      ensures Bracketed(ps[1..][i])
    {
      assert ps[1..][i] == ps[i + 1];
    }
  }

  /** A group that reads back as `ps[0]`, followed as the groups of the rest say. */
  lemma {:induction false} GroupsCons(source: string, pos: nat, ps: seq<P.MavenPredicate>, e: int, end: nat)
    requires |ps| > 0 && pos < end <= |source| && IsOpener(source[pos])
    requires Group(source, source[pos], pos + 1) == Ok((ps[0], e))
    requires GroupsAfter(source, e + 1, ps, end)
    ensures GroupsAt(source, pos, ps, end)
  {
    assert GroupsFrom(source, pos, ps, end);
    assert OpensAt(source, pos, ps, end);
  }

  /** Text "a,b" found at `pos` and ending at `end`: `a` at `pos` up to `e`, then the comma, then `b`. */
  lemma {:induction false} CommaAt(source: string, pos: nat, a: string, b: string, e: int, end: nat)
    requires e == pos + |a| - 1 && end == e + 2 + |b| && end <= |source|
    requires source[pos..end] == a + "," + b
    ensures source[pos..pos + |a|] == a && source[e + 1] == ','
    ensures source[e + 2..end] == b
  {
    InText(source, pos, a + "," + b);
    assert (a + "," + b)[|a|] == ',';
    forall k | 0 <= k < |b|
      ensures source[e + 2 + k] == b[k]
    {
      assert (a + "," + b)[|a| + 1 + k] == b[k];
    }
    forall k | 0 <= k < |a|
      ensures source[pos + k] == a[k]
    {
      assert (a + "," + b)[k] == a[k];
    }
  }

  /** Rendering a list of predicates each in a set of its own never raises. */
  lemma {:induction false} ToStringOfSingletons(ps: seq<P.MavenPredicate>)
    ensures ToString(Singletons(ps)) == Ok(Join(RenderAll(ps), ','))
  {
    TextsMeaning(Singletons(ps));
    assert Texts(Singletons(ps)).value == RenderAll(ps);
  }

  /** The rendering of bracketed predicates starts with a bracket, so it is not blank. */
  lemma {:induction false} RenderingNotBlank(ps: seq<P.MavenPredicate>)
    requires |ps| > 0 && AllBracketed(ps)
    ensures |Join(RenderAll(ps), ',')| > 0 && IsOpener(Join(RenderAll(ps), ',')[0])
    ensures !IsBlank(Join(RenderAll(ps), ','))
  {
    RenderedShape(ps[0]);
    JoinFirst(RenderAll(ps), ',');
  }

  /** Parsing the rendering of bracketed predicates gives each back in a set of its own, with no preferred version. */
  lemma {:induction false} ParseToString(ps: seq<P.MavenPredicate>)
    requires |ps| > 0 && AllBracketed(ps)
    ensures ToString(Singletons(ps)).Ok?
    ensures ParseSpec(ToString(Singletons(ps)).value) == Ok(Parsed(Singletons(ps), None))
  {
    ToStringOfSingletons(ps);
    ParseOfRendering(ps);
  }

  /** The rendering of bracketed predicates, joined with ',', reads back as one set per predicate. */
  lemma {:induction false} ParseOfRendering(ps: seq<P.MavenPredicate>)
    requires |ps| > 0 && AllBracketed(ps)
    ensures ParseSpec(Join(RenderAll(ps), ',')) == Ok(Parsed(Singletons(ps), None))
  {
    RenderingNotBlank(ps);
    ScanOfRendering(ps);
  }

  /** The scan from the start of the rendering of bracketed predicates reads them all back. */
  lemma {:induction false} ScanOfRendering(ps: seq<P.MavenPredicate>)
    requires |ps| > 0 && AllBracketed(ps)
    ensures ScanFrom(Join(RenderAll(ps), ','), 0, false, [], None) == Ok(Parsed(Singletons(ps), None))
  {
    var j := Join(RenderAll(ps), ',');
    RenderingGroupsAtStart(ps);
    ScanGroups(j, 0, false, [], ps, |j|);
    assert [] + Singletons(ps) == Singletons(ps);
  }

  /** The whole rendering of bracketed predicates is groups that read back as them. */
  lemma {:induction false} RenderingGroupsAtStart(ps: seq<P.MavenPredicate>)
    requires |ps| > 0 && AllBracketed(ps)
    ensures GroupsAt(Join(RenderAll(ps), ','), 0, ps, |Join(RenderAll(ps), ',')|)
  {
    var j := Join(RenderAll(ps), ',');
    assert j[0..|j|] == j;
    RenderingGroups(j, 0, ps, |j|);
  }

  /** Text after the rendering of bracketed predicates: the scan reads them back, then goes on with the rest. */
  lemma {:induction false} ScanWithRest(ps: seq<P.MavenPredicate>, rest: string)
    requires |ps| > 0 && AllBracketed(ps)
    ensures !IsBlank(Join(RenderAll(ps), ',') + rest)
    ensures ParseSpec(Join(RenderAll(ps), ',') + rest)
      == AfterRendering(Join(RenderAll(ps), ',') + rest, |Join(RenderAll(ps), ',')|, Singletons(ps))
  {
    var j := Join(RenderAll(ps), ',');
    var s := j + rest;
    assert !IsBlank(s) && GroupsAt(s, 0, ps, |j|) by {
      RenderingNotBlank(ps);
      assert s[0] == j[0];
      assert s[0..|j|] == j;
      RenderingGroups(s, 0, ps, |j|);
    }
    ScanGroups(s, 0, false, [], ps, |j|);
    assert [] + Singletons(ps) == Singletons(ps);
  }

  /** A comma after the last group leaves the parser expecting more: a format error. */
  lemma {:induction false} TrailingCommaRejected(ps: seq<P.MavenPredicate>)
    requires |ps| > 0 && AllBracketed(ps)
    ensures ParseSpec(Join(RenderAll(ps), ',') + ",") == Err(ConstraintFormat)
  {
    ScanWithRest(ps, ",");
  }

  /** Anything but a comma after a group, such as a space, is a format error. */
  lemma {:induction false} TextAfterGroupRejected(ps: seq<P.MavenPredicate>, rest: string)
    requires |ps| > 0 && AllBracketed(ps)
    requires |rest| > 0 && rest[0] != ','
    ensures ParseSpec(Join(RenderAll(ps), ',') + rest) == Err(ConstraintFormat)
  {
    ScanWithRest(ps, rest);
    var j := Join(RenderAll(ps), ',');
    assert (j + rest)[|j|] == rest[0];
  }

  /** A group with no closer after its opener, as in "[1.0", makes the search read past the end. */
  lemma {:induction false} UnclosedGroupRaises(source: string)
    requires |source| > 0 && IsOpener(source[0])
    requires forall j :: 1 <= j < |source| ==> !IsCloser(source[j])
    ensures ParseSpec(source) == Err(IndexOutOfBounds)
  {
    assert !IsBlank(source) by {
      assert !IsWhitespace(source[0]);
    }
    UnclosedGroup(source);
    ScanGroupFails(source, 0, false, [], None);
    assert ScanFrom(source, 0, false, [], None) == Err(IndexOutOfBounds);
  }

  lemma {:induction false} UnclosedGroup(source: string)
    requires |source| > 0
    requires forall j :: 1 <= j < |source| ==> !IsCloser(source[j])
    ensures Group(source, source[0], 1) == Err(IndexOutOfBounds)
  {
    FirstMeaning(source, 1, IsCloser);
  }

  /** A single predicate renders as its own text. */
  lemma {:induction false} RenderedAlone(p: P.MavenPredicate)
    ensures ToString([[p]]) == Ok(P.ToString(p))
  {
    var sets := [[p]];
    assert sets[1..] == [];
    assert Texts(sets[1..]) == Ok([]);
    assert Single(sets[0]) == Ok(p);
    assert [P.ToString(p)] + [] == [P.ToString(p)];
  }

  /**
   * A bare descriptor whose numbers fit is a soft minimum and also the preferred version; it
   * renders as itself.
   */
  lemma {:induction false} BareDescriptor(d: D.Descriptor)
    requires D.Fits(d)
    ensures ToString([[P.MinimumVersion(d)]]) == Ok(D.ToString(d))
    ensures ParseSpec(D.ToString(d)) == Ok(Parsed([[P.MinimumVersion(d)]], Some(D.VersionOf(d))))
  {
    var s := D.ToString(d);
    RenderedAlone(P.MinimumVersion(d));
    D.RenderedChars(d);
    PlainIsQuiet(s);
    assert !IsBlank(s) && !IsOpener(s[0]) by {
      assert !IsWhitespace(s[0]);
    }
    D.ParseToString(d);
    P.MinimumMeaning(d, D.VersionOf(d));
    D.ToVersionMeaning(d);
    ScanBareStep(s, 0, false, [], None);
    assert [] + [[P.MinimumVersion(d)]] == [[P.MinimumVersion(d)]];
  }

  /** A bare descriptor cannot be combined with anything: the whole text is read as one descriptor, which fails at the comma. */
  lemma {:induction false} BareDescriptorAlone(d: D.Descriptor, rest: string)
    requires D.WellFormed(d)
    ensures ParseSpec(D.ToString(d) + "," + rest) == Err(ConstraintFormat)
  {
    var t := D.ToString(d);
    var s := t + "," + rest;
    D.RenderedChars(d);
    PlainIsQuiet(t);
    assert s[0] == t[0];
    assert !IsBlank(s) && !IsOpener(s[0]) by {
      assert !IsWhitespace(s[0]);
    }
    D.ParsedIsPlain(s);
    assert s[|t|] == ',';
    D.ParseFailsOnlyOnFormat(s);
    ScanBareStep(s, 0, false, [], None);
  }
}
