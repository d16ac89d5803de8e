/**
 * Character classes, decimal numerals, splitting and joining, trimming and the
 * string order of the Kotlin standard library, as the library uses them.
 */
module Strings {
  import opened Wrappers

  /** The range of a Kotlin `Int`. */
  const MaxInt: int := 0x7fff_ffff
  const MinInt: int := -0x8000_0000

  predicate IsDigit(c: char) { '0' <= c <= '9' }

  predicate IsLetter(c: char) { 'a' <= c <= 'z' || 'A' <= c <= 'Z' }

  /** The class `[0-9a-zA-Z-]`. */
  predicate IsIdentChar(c: char) { IsDigit(c) || IsLetter(c) || c == '-' }

  predicate AllDigits(s: string) { forall i :: 0 <= i < |s| ==> IsDigit(s[i]) }

  predicate AllIdentChars(s: string) { forall i :: 0 <= i < |s| ==> IsIdentChar(s[i]) }

  /** `0|[1-9]\d*`: a decimal numeral without a leading zero. */
  predicate IsNumeral(s: string) {
    |s| > 0 && AllDigits(s) && (s[0] == '0' ==> |s| == 1)
  }

  function DigitValue(c: char): nat
    requires IsDigit(c)
  {
    c as int - '0' as int
  }

  function DigitChar(d: nat): (c: char)
    requires d < 10
    ensures IsDigit(c) && DigitValue(c) == d
  {
    (d + '0' as int) as char
  }

  /** The value of a string of decimal digits. */
  function DigitsValue(s: string): nat
    requires AllDigits(s)
  {
    if |s| == 0 then 0 else 10 * DigitsValue(s[..|s| - 1]) + DigitValue(s[|s| - 1])
  }

  /** Decimal rendering of a natural number, as `Int.toString()` does for non-negative values. */
  function NatToString(n: nat): (s: string)
    ensures IsNumeral(s) && DigitsValue(s) == n
  {
    if n < 10 then [DigitChar(n)]
    else
      var t := NatToString(n / 10);
      var s := t + [DigitChar(n % 10)];
      assert s[..|s| - 1] == t;
      assert t[0] != '0' by {
        if t[0] == '0' { LeadingZeroMeansZero(t); }
      }
      s
  }

  lemma {:induction false} LeadingZeroMeansZero(s: string)
    requires IsNumeral(s) && s[0] == '0'
    ensures DigitsValue(s) == 0
  {
    assert s[..|s| - 1] == "";
  }

  lemma {:induction false} LeadingNonZeroPositive(s: string)
    requires |s| > 0 && AllDigits(s) && s[0] != '0'
    ensures DigitsValue(s) >= 1
  {
    if |s| > 1 {
      var t := s[..|s| - 1];
      assert t[0] == s[0];
      LeadingNonZeroPositive(t);
    }
  }

  /** A numeral is the rendering of its own value: numerals and naturals are in one-to-one correspondence. */
  lemma {:induction false} NumeralRoundTrip(s: string)
    requires IsNumeral(s)
    ensures NatToString(DigitsValue(s)) == s
  {
    if |s| > 1 {
      var t := s[..|s| - 1];
      assert t[0] == s[0];
      assert IsNumeral(t);
      LeadingNonZeroPositive(t);
      NumeralRoundTrip(t);
      assert s == t + [s[|s| - 1]];
    }
  }

  /**
   * Kotlin's `String.toIntOrNull()`: an optional sign followed by decimal digits whose value
   * fits an `Int`; anything else gives null.
   */
  function ToIntOrNull(s: string): (r: Option<int>)
    ensures r.Some? ==> MinInt <= r.value <= MaxInt
    ensures AllDigits(s) && |s| > 0 ==> r == if DigitsValue(s) <= MaxInt then Some(DigitsValue(s)) else None
  {
    if |s| == 0 then None
    else if s[0] == '-' || s[0] == '+' then
      if |s| == 1 || !AllDigits(s[1..]) then None
      else
        var m: int := DigitsValue(s[1..]);
        if s[0] == '-' then (if m <= -MinInt then Some(-m) else None)
        else (if m <= MaxInt then Some(m) else None)
    else if AllDigits(s) && DigitsValue(s) <= MaxInt then Some(DigitsValue(s))
    else None
  }

  /** Kotlin's `Char.isWhitespace()`. */
  predicate IsWhitespace(c: char) {
    var n := c as int;
    n == 0x20 || 0x09 <= n <= 0x0D || 0x1C <= n <= 0x1F || n == 0xA0 || n == 0x1680
    || 0x2000 <= n <= 0x200A || n == 0x2028 || n == 0x2029 || n == 0x202F || n == 0x205F
    || n == 0x3000
  }

  /** Kotlin's `isBlank()`: empty or whitespace only. */
  predicate IsBlank(s: string) { forall i :: 0 <= i < |s| ==> IsWhitespace(s[i]) }

  function TrimStart(s: string): string {
    if |s| == 0 || !IsWhitespace(s[0]) then s else TrimStart(s[1..])
  }

  function TrimEnd(s: string): string {
    if |s| == 0 || !IsWhitespace(s[|s| - 1]) then s else TrimEnd(s[..|s| - 1])
  }

  /** Kotlin's `trim()`: leading and trailing whitespace removed. */
  function Trim(s: string): string {
    TrimEnd(TrimStart(s))
  }

  /** Text without whitespace is left as it is by trimming. */
  lemma {:induction false} TrimNoWhitespace(s: string)
    requires forall i :: 0 <= i < |s| ==> !IsWhitespace(s[i])
    ensures Trim(s) == s
  {
  }

  lemma {:induction false} TrimStartBlank(s: string)
    requires IsBlank(s)
    ensures TrimStart(s) == ""
  {
    if |s| > 0 {
      TrimStartBlank(s[1..]);
    }
  }

  /** Blank text trims to the empty string. */
  lemma {:induction false} TrimBlank(s: string)
    requires IsBlank(s)
    ensures Trim(s) == ""
  {
    TrimStartBlank(s);
  }

  /** Kotlin's `split(sep)`: the pieces between separators; always at least one piece. */
  function Split(s: string, sep: char): (r: seq<string>)
    ensures |r| >= 1
  {
    if |s| == 0 then [""]
    else
      var rest := Split(s[1..], sep);
      if s[0] == sep then [""] + rest else [[s[0]] + rest[0]] + rest[1..]
  }

  /** No piece of a split holds the separator. */
  lemma {:induction false} SplitPieces(s: string, sep: char)
    ensures forall i :: 0 <= i < |Split(s, sep)| ==> sep !in Split(s, sep)[i]
  {
    if |s| > 0 {
      SplitPieces(s[1..], sep);
      var rest := Split(s[1..], sep);
      if s[0] != sep {
        assert sep !in rest[0];
        assert forall i :: 1 <= i < |Split(s, sep)| ==> Split(s, sep)[i] == rest[i];
      } else {
        assert forall i :: 1 <= i < |Split(s, sep)| ==> Split(s, sep)[i] == rest[i - 1];
      }
    }
  }

  /** Kotlin's `joinToString(sep)`. */
  function Join(parts: seq<string>, sep: char): string {
    if |parts| == 0 then ""
    else if |parts| == 1 then parts[0]
    else parts[0] + [sep] + Join(parts[1..], sep)
  }

  lemma {:induction false} SplitNoSeparator(x: string, sep: char)
    requires sep !in x
    ensures Split(x, sep) == [x]
  {
    if |x| > 0 {
      SplitNoSeparator(x[1..], sep);
      assert [x[0]] + x[1..] == x;
    }
  }

  lemma {:induction false} SplitAfterPiece(x: string, sep: char, y: string)
    requires sep !in x
    ensures Split(x + [sep] + y, sep) == [x] + Split(y, sep)
  {
    if |x| == 0 {
      assert x + [sep] + y == [sep] + y;
      assert ([sep] + y)[1..] == y;
    } else {
      SplitAfterPiece(x[1..], sep, y);
      assert (x + [sep] + y)[1..] == x[1..] + [sep] + y;
      assert [x[0]] + x[1..] == x;
    }
  }

  /** Splitting a joined list gives the list back, when no piece contains the separator. */
  lemma {:induction false} SplitJoin(parts: seq<string>, sep: char)
    requires |parts| > 0
    requires forall i :: 0 <= i < |parts| ==> sep !in parts[i]
    ensures Split(Join(parts, sep), sep) == parts
  {
    if |parts| == 1 {
      SplitNoSeparator(parts[0], sep);
    } else {
      SplitJoin(parts[1..], sep);
      SplitAfterPiece(parts[0], sep, Join(parts[1..], sep));
      assert [parts[0]] + parts[1..] == parts;
    }
  }

  /** Joining the pieces of a split gives the string back. */
  lemma {:induction false} JoinSplit(s: string, sep: char)
    ensures Join(Split(s, sep), sep) == s
  {
    if |s| > 0 {
      JoinSplit(s[1..], sep);
      var rest := Split(s[1..], sep);
      if s[0] == sep {
        assert Join([""] + rest, sep) == "" + [sep] + Join(rest, sep);
      } else {
        var r := [[s[0]] + rest[0]] + rest[1..];
        assert r[1..] == rest[1..];
        if |rest| == 1 {
          assert Join(r, sep) == [s[0]] + rest[0];
        } else {
          assert Join(rest, sep) == rest[0] + [sep] + Join(rest[1..], sep);
        }
      }
      assert [s[0]] + s[1..] == s;
    }
  }

  /** Index of the first character of `s` that lies in `cs`, or `|s|` when there is none. */
  function IndexOfAny(s: string, cs: set<char>): (i: nat)
    ensures i <= |s|
  {
    if |s| == 0 || s[0] in cs then 0 else 1 + IndexOfAny(s[1..], cs)
  }

  /** The index found is that of the first character of `cs`, or the length when there is none. */
  lemma {:induction false} IndexOfAnyMeaning(s: string, cs: set<char>)
    ensures forall k :: 0 <= k < IndexOfAny(s, cs) ==> s[k] !in cs
    ensures IndexOfAny(s, cs) < |s| ==> s[IndexOfAny(s, cs)] in cs
  {
    if |s| > 0 && s[0] !in cs {
      IndexOfAnyMeaning(s[1..], cs);
      forall k | 0 <= k < IndexOfAny(s, cs)
        ensures s[k] !in cs
      {
        if k > 0 {
          assert s[k] == s[1..][k - 1];
        }
      }
    }
  }

  lemma {:induction false} IndexOfAnyAfter(x: string, y: string, cs: set<char>)
    requires forall k :: 0 <= k < |x| ==> x[k] !in cs
    ensures IndexOfAny(x + y, cs) == |x| + IndexOfAny(y, cs)
  {
    IndexOfAnyMeaning(x + y, cs);
    IndexOfAnyMeaning(y, cs);
    assert forall k :: 0 <= k < |x| ==> (x + y)[k] == x[k];
    assert forall k :: 0 <= k < |y| ==> (x + y)[|x| + k] == y[k];
  }

  /** Concatenation is associative; the solver needs the step spelled out inside larger proofs. */
  lemma {:induction false} Associative<T>(a: seq<T>, b: seq<T>, c: seq<T>)
    ensures a + b + c == a + (b + c)
  {
  }

  lemma {:induction false} JoinNoChar(parts: seq<string>, sep: char, c: char)
    requires c != sep
    requires forall i :: 0 <= i < |parts| ==> c !in parts[i]
    ensures c !in Join(parts, sep)
  {
    if |parts| > 1 {
      JoinNoChar(parts[1..], sep, c);
    }
  }

  /** A character that is not the separator and occurs in no piece does not occur in the string. */
  lemma {:induction false} SplitNoChar(s: string, sep: char, c: char)
    requires c != sep
    requires forall i :: 0 <= i < |Split(s, sep)| ==> c !in Split(s, sep)[i]
    ensures c !in s
  {
    JoinSplit(s, sep);
    JoinNoChar(Split(s, sep), sep, c);
  }

  lemma {:induction false} JoinFirst(parts: seq<string>, sep: char)
    requires |parts| > 0 && |parts[0]| > 0
    ensures |Join(parts, sep)| > 0 && Join(parts, sep)[0] == parts[0][0]
  {
  }

  /** `Int.compareTo`: -1, 0 or 1. */
  function IntCompare(a: int, b: int): (r: int)
    ensures r < 0 <==> a < b
    ensures r == 0 <==> a == b
    ensures -1 <= r <= 1
  {
    if a < b then -1 else if a > b then 1 else 0
  }

  lemma {:induction false} JoinNoWhitespace(parts: seq<string>, sep: char)
    requires !IsWhitespace(sep)
    requires forall i, k :: 0 <= i < |parts| && 0 <= k < |parts[i]| ==> !IsWhitespace(parts[i][k])
    ensures forall k :: 0 <= k < |Join(parts, sep)| ==> !IsWhitespace(Join(parts, sep)[k])
  {
    if |parts| > 1 {
      JoinNoWhitespace(parts[1..], sep);
      var j := Join(parts, sep);
      var rest := Join(parts[1..], sep);
      assert j == parts[0] + [sep] + rest;
      forall k | 0 <= k < |j|
        ensures !IsWhitespace(j[k])
      {
        if k < |parts[0]| {
          assert j[k] == parts[0][k];
        } else if k > |parts[0]| {
          assert j[k] == rest[k - |parts[0]| - 1];
        }
      }
    }
  }

  /** Kotlin `Int` arithmetic: a value reduced into the 32-bit two's-complement range. */
  function Wrap32(x: int): (r: int)
    ensures MinInt <= r <= MaxInt
    ensures (r - x) % 0x1_0000_0000 == 0
    ensures MinInt <= x <= MaxInt ==> r == x
  {
    (x - MinInt) % 0x1_0000_0000 + MinInt
  }

  /** `String.hashCode()`: the characters folded as `31 * h + c`, in `Int` arithmetic. */
  function StringHash(s: string): int {
    if |s| == 0 then 0 else Wrap32(31 * StringHash(s[..|s| - 1]) + s[|s| - 1] as int)
  }

  /** `String.compareTo`: first differing character, else the length difference. */
  function StringCompare(a: string, b: string): int {
    if |a| == 0 || |b| == 0 then |a| - |b|
    else if a[0] != b[0] then a[0] as int - b[0] as int
    else StringCompare(a[1..], b[1..])
  }

  lemma {:induction false} StringCompareZero(a: string, b: string)
    ensures StringCompare(a, b) == 0 <==> a == b
  {
    if |a| > 0 && |b| > 0 && a[0] == b[0] {
      StringCompareZero(a[1..], b[1..]);
      assert a == [a[0]] + a[1..] && b == [b[0]] + b[1..];
    }
  }

  lemma {:induction false} StringCompareAntisymmetric(a: string, b: string)
    ensures StringCompare(a, b) == -StringCompare(b, a)
  {
    if |a| > 0 && |b| > 0 && a[0] == b[0] {
      StringCompareAntisymmetric(a[1..], b[1..]);
    }
  }

  lemma {:induction false} StringCompareTransitive(a: string, b: string, c: string)
    requires StringCompare(a, b) < 0 && StringCompare(b, c) < 0
    ensures StringCompare(a, c) < 0
  {
    if |a| > 0 && |b| > 0 && |c| > 0 && a[0] == b[0] && b[0] == c[0] {
      StringCompareTransitive(a[1..], b[1..], c[1..]);
    }
  }
}
