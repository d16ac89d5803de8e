/** The NPM comparison operators: their symbols, reading a symbol, and reading one off the front of text. */
module NpmOps {
  import opened Wrappers

  datatype Op = Equal | LessThan | LessThanOrEqual | GreaterThan | GreaterThanOrEqual

  /** `toString`: the operator's symbol. */
  function ToString(op: Op): string {
    match op
    case Equal => "="
    case LessThan => "<"
    case LessThanOrEqual => "<="
    case GreaterThan => ">"
    case GreaterThanOrEqual => ">="
  }

  /** `toOperator`: a symbol, with "=>" and "=<" also read as ">=" and "<="; anything else is null. */
  function ToOperator(s: string): (r: Option<Op>)
    ensures r.Some? ==> 1 <= |s| <= 2
  {
    if |s| == 0 then None
    else if s == "=" then Some(Equal)
    else if s == ">" then Some(GreaterThan)
    else if s == "<" then Some(LessThan)
    else if s == ">=" || s == "=>" then Some(GreaterThanOrEqual)
    else if s == "<=" || s == "=<" then Some(LessThanOrEqual)
    else None
  }

  /** The texts `toOperator` accepts. */
  const Symbols: set<string> := {"=", ">", "<", ">=", "=>", "<=", "=<"}

  /** Reading an operator's own symbol gives the operator back, and every symbol names some operator. */
  lemma {:induction false} ToOperatorRoundTrip(op: Op, s: string)
    ensures ToOperator(ToString(op)) == Some(op)
    ensures ToOperator(s).Some? <==> s in Symbols
  {
  }

  /** The two spellings of each inclusive operator are read alike. */
  lemma {:induction false} ReversedSpellings()
    ensures ToOperator("=>") == ToOperator(">=") == Some(GreaterThanOrEqual)
    ensures ToOperator("=<") == ToOperator("<=") == Some(LessThanOrEqual)
  {
  }

  /**
   * `startsWithOperator`: null for empty text; otherwise a two-character operator at the front
   * is preferred to a one-character one.
   */
  function StartsWithOperator(s: string): (r: Option<Op>)
  {
    if |s| == 0 then None
    else if |s| >= 2 && ToOperator(s[..2]).Some? then ToOperator(s[..2])
    else ToOperator(s[..1])
  }

  /**
   * The operator read off the front is the one named by the longest symbol the text starts
   * with: a two-character symbol when there is one, else a one-character one, else none.
   */
  lemma {:induction false} StartsWithOperatorMeaning(s: string)
    ensures StartsWithOperator(s).Some? <==> exists k :: 1 <= k <= 2 && k <= |s| && s[..k] in Symbols
    ensures |s| >= 2 && s[..2] in Symbols ==> StartsWithOperator(s) == ToOperator(s[..2])
    ensures (|s| < 2 || s[..2] !in Symbols) && |s| >= 1 ==> StartsWithOperator(s) == ToOperator(s[..1])
  {
    if |s| >= 1 {
      ToOperatorRoundTrip(Equal, s[..1]);
      if |s| >= 2 {
        ToOperatorRoundTrip(Equal, s[..2]);
      }
    }
  }

  /** ">=1.0.0" reads as ">=", not as ">" followed by "=1.0.0". */
  lemma {:induction false} TwoCharacterFirst()
    ensures StartsWithOperator(">=1.0.0") == Some(GreaterThanOrEqual)
    ensures StartsWithOperator("<1") == Some(LessThan)
    ensures StartsWithOperator("1.0.0") == None
  {
    assert ">=1.0.0"[..2] == ">=";
    assert "<1"[..2] == "<1" && "<1"[..1] == "<";
    assert "1.0.0"[..2] == "1." && "1.0.0"[..1] == "1";
  }

  /** `isX`: a missing, empty, "x"/"X" or "*" component is a wildcard. */
  function IsX(id: Option<string>): (r: bool)
    ensures r <==> id.None? || id.value in {"", "x", "X", "*"}
  {
    id.None? || id.value == "" || id.value == "x" || id.value == "X" || id.value == "*"
  }
}
