/**
 * The JavaScript sniff that forbids object method calls such as `console.log(`
 * (`ForbiddenObjectFunctionCallsSniff::process` in
 * DrupalCodeCheck/Sniffs/JS/ForbiddenObjectFunctionCallsSniff.php).
 *
 * The token array and the forbidden names are given. The lookups `findPrevious`/`findNext` that
 * skip whitespace are written out as recursive functions. A lookup that finds nothing yields PHP's
 * `false`, which as an array index reads entry 0; `Process` keeps that.
 */
module ForbiddenObjectFunctionCalls {
  import opened Wrappers
  import opened Text

  /** The token codes the sniff tells apart; every other code is `TOther`. */
  datatype TokenCode = TString | TObjectOperator | TWhitespace | TOpenParenthesis | TFunction | TOther(name: string)

  datatype Token = Token(code: TokenCode, content: string)

  /** The result of `findPrevious`/`findNext`: a position, or PHP's `false`. */
  datatype Lookup = Found(index: nat) | NotFound

  /** What `addError` receives: the position reported, the offending name, the pattern (null in exact mode). */
  datatype Finding = Finding(at: nat, name: string, pattern: Option<string>)

  /** What `preg_replace` gives back for one subject: the new string and the number of replacements. */
  datatype Replacement = Replacement(result: string, count: nat)

  /**
   * How `forbiddenFunctionNames` is used: exact membership, or (when `patternMatch` is set) the
   * replacement of every pattern by itself; the engine behind the latter is left abstract.
   */
  datatype MatchMode = ExactNames(names: seq<string>) | Patterns(replace: string -> Replacement)

  /** The keys of `forbiddenFunctions` for this sniff. */
  const ForbiddenFunctions: seq<string> := ["console.error", "console.info", "console.log", "window.alert"]

  /** The sniff leaves `patternMatch` at its inherited `false`, so it matches the names exactly. */
  const SniffMode: MatchMode := ExactNames(ForbiddenFunctions)

  /** The token codes the sniff adds to its parent's registrations. */
  const Registered: seq<TokenCode> := [TString, TObjectOperator, TFunction]

  /** Every token in `[lo, hi)` is whitespace. */
  predicate AllWhitespace(tokens: seq<Token>, lo: int, hi: int) {
    forall j :: 0 <= lo <= j < hi <= |tokens| ==> tokens[j].code == TWhitespace
  }

  /** `findPrevious(T_WHITESPACE, start, null, true)`: the last non-whitespace token at or before `start`. */
  function FindPrevious(tokens: seq<Token>, start: int): (r: Lookup)
    requires start < |tokens|
    decreases start + 1
    ensures r.Found? ==> r.index <= start && tokens[r.index].code != TWhitespace
    ensures r.Found? ==> AllWhitespace(tokens, r.index + 1, start + 1)
    ensures r.NotFound? ==> AllWhitespace(tokens, 0, start + 1)
  {
    if start < 0 then NotFound
    else if tokens[start].code != TWhitespace then Found(start)
    else FindPrevious(tokens, start - 1)
  }

  /** `findNext(T_WHITESPACE, start, null, true)`: the first non-whitespace token at or after `start`. */
  function FindNext(tokens: seq<Token>, start: nat): (r: Lookup)
    decreases |tokens| - start
    ensures r.Found? ==> start <= r.index < |tokens| && tokens[r.index].code != TWhitespace
    ensures r.Found? ==> AllWhitespace(tokens, start, r.index)
    ensures r.NotFound? ==> AllWhitespace(tokens, start, |tokens|)
  {
    if start >= |tokens| then NotFound
    else if tokens[start].code != TWhitespace then Found(start)
    else FindNext(tokens, start + 1)
  }

  /** The array index PHP uses for a lookup result: `false` reads as 0. */
  function PhpIndex(l: Lookup): nat {
    if l.Found? then l.index else 0
  }

  /** `$tokens[$lookup]`. */
  function TokenAt(tokens: seq<Token>, l: Lookup): Token
    requires |tokens| > 0 && (l.Found? ==> l.index < |tokens|)
  {
    tokens[PhpIndex(l)]
  }

  /** The lower-cased `receiver . method` name the sniff tests. */
  function Candidate(receiver: Token, operator: Token, name: Token): string {
    Lower(receiver.content + operator.content + name.content)
  }

  /**
   * The decision once the shape has been recognised: exact mode reports a name in the list, pattern
   * mode a name some pattern replaced; the finding sits at `at` and carries the name.
   */
  function Decide(mode: MatchMode, at: nat, name: string): (r: Option<Finding>)
    ensures mode.ExactNames? ==> (r.Some? <==> name in mode.names)
    ensures mode.Patterns? ==> (r.Some? <==> mode.replace(name).count > 0)
    ensures r.Some? ==> r.value.at == at && r.value.name == name
    ensures r.Some? ==> (r.value.pattern.None? <==> mode.ExactNames?)
  {
    match mode
    case Patterns(replace) =>
      var replaced := replace(name);
      if replaced.count == 0 then None
      else Some(Finding(at, name, Some(PhpSubstr(replaced.result))))
    case ExactNames(names) =>
      if name in names then Some(Finding(at, name, None)) else None
  }

  /** `substr($pattern, 1, -2)`: drop the first character and the last two (PHP 8: "" when too short). */
  function PhpSubstr(s: string): string {
    if |s| >= 3 then s[1..|s| - 2] else ""
  }

  /** `process`: the finding, if any, the sniff raises for the token at `stackPtr`. */
  function Process(mode: MatchMode, tokens: seq<Token>, stackPtr: nat): (r: Option<Finding>)
    requires stackPtr < |tokens|
    ensures r.Some? ==> tokens[stackPtr].code == TObjectOperator
    ensures r.Some? ==> FindPrevious(tokens, stackPtr - 1) == Found(r.value.at)
    ensures r.Some? ==> r.value.at < stackPtr && tokens[r.value.at].code == TString
    ensures r.Some? ==> stackPtr + 1 < |tokens| && tokens[stackPtr + 1].code == TString
    ensures r.Some? ==> r.value.name == Candidate(tokens[r.value.at], tokens[stackPtr], tokens[stackPtr + 1])
    ensures mode.ExactNames? ==> (r.Some? ==> r.value.name in mode.names && r.value.pattern.None?)
    ensures mode.Patterns? ==> (r.Some? ==> mode.replace(r.value.name).count > 0 && r.value.pattern.Some?)
  {
    var prevToken := FindPrevious(tokens, stackPtr - 1);
    var nextToken := FindNext(tokens, stackPtr + 1);
    var afterNextToken := FindNext(tokens, stackPtr + 2);
    PrevLookupFallback(tokens, stackPtr);
    NextLookupsAgree(tokens, stackPtr);
    if tokens[stackPtr].code == TObjectOperator
       && TokenAt(tokens, prevToken).code == TString
       && TokenAt(tokens, nextToken).code == TString
       && TokenAt(tokens, afterNextToken).code == TOpenParenthesis
    then
      var candidate := Candidate(TokenAt(tokens, prevToken), tokens[stackPtr], TokenAt(tokens, nextToken));
      Decide(mode, PhpIndex(prevToken), candidate)
    else
      None
  }

  /**
   * When nothing but whitespace precedes the operator, PHP reads `$tokens[0]`, which is then
   * whitespace or the operator itself: never a `T_STRING`.
   */
  lemma PrevLookupFallback(tokens: seq<Token>, stackPtr: nat)
    requires stackPtr < |tokens|
    ensures FindPrevious(tokens, stackPtr - 1).NotFound? ==>
              tokens[0].code == TWhitespace || tokens[0] == tokens[stackPtr]
  {
  }

  /**
   * When the token after the operator is whitespace, both forward lookups land on the same token,
   * which cannot be a `T_STRING` and a `T_OPEN_PARENTHESIS` at once; otherwise the next token is
   * the one right after the operator.
   */
  lemma NextLookupsAgree(tokens: seq<Token>, stackPtr: nat)
    requires stackPtr < |tokens|
    ensures stackPtr + 1 < |tokens| && tokens[stackPtr + 1].code == TWhitespace ==>
              FindNext(tokens, stackPtr + 1) == FindNext(tokens, stackPtr + 2)
    ensures stackPtr + 1 < |tokens| && tokens[stackPtr + 1].code != TWhitespace ==>
              FindNext(tokens, stackPtr + 1) == Found(stackPtr + 1)
    ensures stackPtr + 1 >= |tokens| ==> FindNext(tokens, stackPtr + 1) == NotFound
  {
  }

  /**
   * The token layout the sniff looks for around the operator at `p`: a `T_STRING` at `a` before it
   * with only whitespace between, a `T_STRING` right after it, and a `(` at `m`, the first
   * non-whitespace token from `p + 2` on.
   */
  ghost predicate CallShape(tokens: seq<Token>, p: nat, a: nat, m: nat) {
    && p + 1 < |tokens|
    && tokens[p].code == TObjectOperator
    && a < p && tokens[a].code == TString && AllWhitespace(tokens, a + 1, p)
    && tokens[p + 1].code == TString
    && p + 2 <= m < |tokens| && tokens[m].code == TOpenParenthesis && AllWhitespace(tokens, p + 2, m)
  }

  /** `findPrevious` from `start` lands on `a` when `a` is significant and only whitespace follows it up to `start`. */
  lemma {:induction false} FindPreviousIs(tokens: seq<Token>, start: int, a: nat)
    requires a <= start < |tokens| && tokens[a].code != TWhitespace && AllWhitespace(tokens, a + 1, start + 1)
    ensures FindPrevious(tokens, start) == Found(a)
    decreases start
  {
    if start != a {
      assert tokens[start].code == TWhitespace;
      FindPreviousIs(tokens, start - 1, a);
    }
  }

  /** `findNext` from `start` lands on `m` when `m` is significant and only whitespace precedes it from `start`. */
  lemma {:induction false} FindNextIs(tokens: seq<Token>, start: nat, m: nat)
    requires start <= m < |tokens| && tokens[m].code != TWhitespace && AllWhitespace(tokens, start, m)
    ensures FindNext(tokens, start) == Found(m)
    decreases m - start
  {
    if start != m {
      assert tokens[start].code == TWhitespace;
      FindNextIs(tokens, start + 1, m);
    }
  }

  /** Whenever the layout is there, the sniff decides on the name it spells, reported at the receiver. */
  lemma ShapeDecides(mode: MatchMode, tokens: seq<Token>, p: nat, a: nat, m: nat)
    requires CallShape(tokens, p, a, m)
    ensures Process(mode, tokens, p) == Decide(mode, a, Candidate(tokens[a], tokens[p], tokens[p + 1]))
  {
    FindPreviousIs(tokens, p - 1, a);
    FindNextIs(tokens, p + 1, p + 1);
    FindNextIs(tokens, p + 2, m);
  }

  /**
   * Without the layout there is no finding, as long as the first token is not `(`: entry 0 is what
   * PHP reads when the lookup for the parenthesis finds nothing.
   */
  lemma NoShapeNoFinding(mode: MatchMode, tokens: seq<Token>, p: nat)
    requires p < |tokens| && tokens[0].code != TOpenParenthesis
    requires forall a: nat, m: nat :: !CallShape(tokens, p, a, m)
    ensures Process(mode, tokens, p) == None
  {
    var r := Process(mode, tokens, p);
    if r.Some? {
      var a := r.value.at;
      var after := FindNext(tokens, p + 2);
      NextLookupsAgree(tokens, p);
      if after.Found? {
        assert CallShape(tokens, p, a, after.index);
      }
    }
  }

  /**
   * In exact mode the sniff reports at `stackPtr` iff the layout is there and the lower-cased name it
   * spells is one of the forbidden names (first token not `(`, as above).
   */
  lemma ExactModeIff(names: seq<string>, tokens: seq<Token>, p: nat)
    requires p < |tokens| && tokens[0].code != TOpenParenthesis
    ensures Process(ExactNames(names), tokens, p).Some? <==>
              exists a: nat, m: nat :: CallShape(tokens, p, a, m) && Candidate(tokens[a], tokens[p], tokens[p + 1]) in names
  {
    if exists a: nat, m: nat :: CallShape(tokens, p, a, m) {
      var a: nat, m: nat :| CallShape(tokens, p, a, m);
      ShapeDecides(ExactNames(names), tokens, p, a, m);
      forall a': nat, m': nat | CallShape(tokens, p, a', m')
        ensures a' == a
      {
        FindPreviousIs(tokens, p - 1, a');
        FindPreviousIs(tokens, p - 1, a);
      }
    } else {
      NoShapeNoFinding(ExactNames(names), tokens, p);
    }
  }

  /**
   * The side condition above is needed: with `(` as entry 0 and nothing after `console . log`, the
   * failed lookup for the parenthesis reads entry 0 and the sniff reports a call that has no `(`.
   */
  lemma LeadingParenthesisQuirk()
    ensures Process(SniffMode, [Token(TOpenParenthesis, "("), Token(TString, "console"), Token(TObjectOperator, "."),
                                Token(TString, "log")], 2)
            == Some(Finding(1, "console.log", None))
    ensures forall a: nat, m: nat :: !CallShape([Token(TOpenParenthesis, "("), Token(TString, "console"),
                                                 Token(TObjectOperator, "."), Token(TString, "log")], 2, a, m)
  {
    var tokens := [Token(TOpenParenthesis, "("), Token(TString, "console"), Token(TObjectOperator, "."), Token(TString, "log")];
    assert FindPrevious(tokens, 1) == Found(1);
    assert FindNext(tokens, 3) == Found(3);
    assert FindNext(tokens, 4) == NotFound;
    assert Candidate(tokens[1], tokens[2], tokens[3]) == "console.log";
  }

  /** Tokens that agree in codes and in lower-cased contents. */
  predicate SameUpToCase(t: seq<Token>, u: seq<Token>) {
    |t| == |u| && forall i :: 0 <= i < |t| ==> t[i].code == u[i].code && Lower(t[i].content) == Lower(u[i].content)
  }

  lemma {:induction false} FindPreviousIgnoresContent(t: seq<Token>, u: seq<Token>, start: int)
    requires SameUpToCase(t, u) && start < |t|
    ensures FindPrevious(t, start) == FindPrevious(u, start)
    decreases start + 1
  {
    if start >= 0 && t[start].code == TWhitespace {
      FindPreviousIgnoresContent(t, u, start - 1);
    }
  }

  lemma {:induction false} FindNextIgnoresContent(t: seq<Token>, u: seq<Token>, start: nat)
    requires SameUpToCase(t, u)
    ensures FindNext(t, start) == FindNext(u, start)
    decreases |t| - start
  {
    if start < |t| && t[start].code == TWhitespace {
      FindNextIgnoresContent(t, u, start + 1);
    }
  }

  /** The sniff does not see letter case: `Console.Log(` is judged as `console.log(`. */
  lemma CaseInsensitive(mode: MatchMode, t: seq<Token>, u: seq<Token>, p: nat)
    requires SameUpToCase(t, u) && p < |t|
    ensures Process(mode, t, p) == Process(mode, u, p)
  {
    FindPreviousIgnoresContent(t, u, p - 1);
    FindNextIgnoresContent(t, u, p + 1);
    FindNextIgnoresContent(t, u, p + 2);
    forall x: Token, y: Token, z: Token, x': Token, y': Token, z': Token
      | Lower(x.content) == Lower(x'.content) && Lower(y.content) == Lower(y'.content) && Lower(z.content) == Lower(z'.content)
      ensures Candidate(x, y, z) == Candidate(x', y', z')
    {
      LowerConcat(x.content, y.content);
      LowerConcat(x.content + y.content, z.content);
      LowerConcat(x'.content, y'.content);
      LowerConcat(x'.content + y'.content, z'.content);
    }
  }

  /** `Console.Log(` is reported as `console.log`, at the receiver. */
  lemma MixedCaseCallReported()
    ensures Process(SniffMode, [Token(TString, "Console"), Token(TObjectOperator, "."), Token(TString, "Log"),
                                Token(TOpenParenthesis, "(")], 1)
            == Some(Finding(0, "console.log", None))
  {
    var tokens := [Token(TString, "Console"), Token(TObjectOperator, "."), Token(TString, "Log"), Token(TOpenParenthesis, "(")];
    assert CallShape(tokens, 1, 0, 3);
    ShapeDecides(SniffMode, tokens, 1, 0, 3);
    assert Candidate(tokens[0], tokens[1], tokens[2]) == "console.log";
  }

  /** Names are compared whole: `myconsole.log(` is not `console.log(`. */
  lemma LongerReceiverNotReported()
    ensures Process(SniffMode, [Token(TString, "myconsole"), Token(TObjectOperator, "."), Token(TString, "log"),
                                Token(TOpenParenthesis, "(")], 1)
            == None
  {
    var tokens := [Token(TString, "myconsole"), Token(TObjectOperator, "."), Token(TString, "log"), Token(TOpenParenthesis, "(")];
    ShapeDecides(SniffMode, tokens, 1, 0, 3);
    assert Candidate(tokens[0], tokens[1], tokens[2]) == "myconsole.log";
    assert |"myconsole.log"| == 13;
  }

  /** Whitespace before the parenthesis is skipped: `console.log (` is reported. */
  lemma SpaceBeforeParenthesisReported()
    ensures Process(SniffMode, [Token(TString, "console"), Token(TObjectOperator, "."), Token(TString, "log"),
                                Token(TWhitespace, " "), Token(TOpenParenthesis, "(")], 1)
            == Some(Finding(0, "console.log", None))
  {
    var tokens := [Token(TString, "console"), Token(TObjectOperator, "."), Token(TString, "log"), Token(TWhitespace, " "),
                   Token(TOpenParenthesis, "(")];
    assert CallShape(tokens, 1, 0, 4);
    ShapeDecides(SniffMode, tokens, 1, 0, 4);
    assert Candidate(tokens[0], tokens[1], tokens[2]) == "console.log";
  }

  /**
   * Whitespace right after the operator defeats the sniff: the parenthesis lookup starts at
   * `stackPtr + 2` and lands on the method name, so `console. log(` is not reported.
   */
  lemma SpaceAfterOperatorNotReported(mode: MatchMode, tokens: seq<Token>, p: nat)
    requires p + 1 < |tokens| && tokens[p + 1].code == TWhitespace
    ensures Process(mode, tokens, p) == None
  {
  }

  /** Registered positions holding a `T_STRING` or `T_FUNCTION` never lead to a finding here. */
  lemma OnlyOperatorPositions(mode: MatchMode, tokens: seq<Token>, p: nat)
    requires p < |tokens| && tokens[p].code in Registered && tokens[p].code != TObjectOperator
    ensures Process(mode, tokens, p) == None
  {
  }
}
