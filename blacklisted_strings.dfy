/**
 * The blacklisted-strings check (`DrupalBlacklistedStringsCheck::processFile` in
 * git-hooks/pre-commit.php). The fragments are quoted with `preg_quote` and joined into
 * `\b(q1)|\b(q2)|...`; `preg_match_all` finds the matches; their distinct trimmed texts are
 * collected in an insertion-ordered dictionary and reported.
 *
 * The regular-expression engine is replaced by an explicit left-to-right scan: at each position the
 * alternatives are tried in list order, the first that matches wins, the scan resumes after it, and
 * a position where none matches is passed by one character.
 */
module BlacklistedStrings {
  import opened Wrappers
  import opened Text

  /** The fragments `getChecks` returns: the conflict markers a Git merge leaves behind. */
  const Checks: seq<string> := ["<<<<<<<", ">>>>>>>"]

  /**
   * The condition on the position where an alternative starts. `WordBoundary` is the `\b` the source
   * writes. `LineStart` is the corrected condition: a fragment that begins with a word character
   * must not follow one, as under `\b`; for a fragment that begins with a non-word character the
   * boundary is dropped altogether, so such a marker counts at any offset: at the start of a line,
   * where Git writes it, and equally in the middle of one.
   */
  datatype BoundaryRule = WordBoundary | LineStart

  // ---------------------------------------------------------------------------------------------
  // preg_quote and the literal its output stands for

  /** The characters `preg_quote` escapes with a backslash (NUL is handled apart). */
  predicate IsQuoteSpecial(c: char) {
    c in ".\\+*?[^]$(){}=!<>|:-#"
  }

  function QuoteChar(c: char): string {
    if c == '\0' then "\\000" else if IsQuoteSpecial(c) then ['\\', c] else [c]
  }

  /** `preg_quote` without a delimiter argument. */
  function Quote(s: string): string {
    if s == [] then [] else QuoteChar(s[0]) + Quote(s[1..])
  }

  /**
   * The text a pattern made of literal characters and escapes stands for: `\000` is NUL, a backslash
   * before any other character makes that character literal.
   */
  function LiteralOf(p: string): string
    decreases |p|
  {
    if p == [] then []
    else if |p| >= 4 && p[..4] == "\\000" then ['\0'] + LiteralOf(p[4..])
    else if p[0] == '\\' && |p| >= 2 then [p[1]] + LiteralOf(p[2..])
    else [p[0]] + LiteralOf(p[1..])
  }

  lemma LiteralOfQuoteChar(c: char, rest: string)
    ensures LiteralOf(QuoteChar(c) + rest) == [c] + LiteralOf(rest)
  {
    var p := QuoteChar(c) + rest;
    if c == '\0' {
      assert p[..4] == "\\000" && p[4..] == rest;
    } else if IsQuoteSpecial(c) {
      assert p[0] == '\\' && p[1] == c && p[2..] == rest;
      assert c != '0';
      assert !(|p| >= 4 && p[..4] == "\\000") by {
        if |p| >= 4 { assert p[..4][1] == c; }
      }
    } else {
      assert p[0] == c && p[1..] == rest;
    }
  }

  /** Quoting loses nothing: the quoted pattern stands for exactly the fragment it was made from. */
  lemma {:induction false} LiteralOfQuote(s: string)
    ensures LiteralOf(Quote(s)) == s
  {
    if s != [] {
      LiteralOfQuote(s[1..]);
      LiteralOfQuoteChar(s[0], Quote(s[1..]));
    }
  }

  /** git-hooks/pre-commit.php, lines 379-381: every entry of the array is replaced by its quoted form. */
  method QuoteAll(checks: array<string>)
    modifies checks
    ensures forall k :: 0 <= k < checks.Length ==> checks[k] == Quote(old(checks[k]))
  {
    for index := 0 to checks.Length
      invariant forall k :: 0 <= k < index ==> checks[k] == Quote(old(checks[k]))
      invariant forall k :: index <= k < checks.Length ==> checks[k] == old(checks[k])
    {
      checks[index] := Quote(checks[index]);
    }
  }

  // ---------------------------------------------------------------------------------------------
  // The scan behind preg_match_all

  predicate StartOk(rule: BoundaryRule, s: string, i: nat, fragment: string) {
    match rule
    case WordBoundary => IsWordAt(s, i - 1) != IsWordAt(s, i)
    case LineStart => (fragment != [] && IsWordChar(fragment[0])) ==> !IsWordAt(s, i - 1)
  }

  /** The alternative for `fragment` matches at offset `i`. */
  predicate MatchesAt(s: string, fragment: string, rule: BoundaryRule, i: nat) {
    IsPrefixAt(fragment, s, i) && StartOk(rule, s, i, fragment)
  }

  /** No alternative matches at offset `i`. */
  predicate NoMatchAt(s: string, fragments: seq<string>, rule: BoundaryRule, i: nat) {
    forall k :: 0 <= k < |fragments| ==> !MatchesAt(s, fragments[k], rule, i)
  }

  /** No alternative matches anywhere in `[lo, hi)`. */
  predicate Gap(s: string, fragments: seq<string>, rule: BoundaryRule, lo: nat, hi: nat) {
    forall p: nat :: lo <= p < hi ==> NoMatchAt(s, fragments, rule, p)
  }

  /** No alternative matches anywhere in `s`: `preg_match_all` returns 0. */
  predicate NoOccurrence(s: string, fragments: seq<string>, rule: BoundaryRule) {
    Gap(s, fragments, rule, 0, |s|)
  }

  predicate NonEmptyFragments(fragments: seq<string>) {
    forall k :: 0 <= k < |fragments| ==> fragments[k] != []
  }

  /** A match: where it starts and which alternative produced it. */
  datatype Match = Match(start: nat, alternative: nat)

  function EndOf(fragments: seq<string>, m: Match): nat
    requires m.alternative < |fragments|
  {
    m.start + |fragments[m.alternative]|
  }

  /** Every match is one of the alternatives, matching where it says, and the first one that does. */
  predicate ValidMatches(s: string, fragments: seq<string>, rule: BoundaryRule, ms: seq<Match>) {
    forall a :: 0 <= a < |ms| ==>
      ms[a].alternative < |fragments| &&
      MatchesAt(s, fragments[ms[a].alternative], rule, ms[a].start) &&
      forall k :: 0 <= k < ms[a].alternative ==> !MatchesAt(s, fragments[k], rule, ms[a].start)
  }

  /** The first alternative, from the `k`-th on, that matches at offset `i`. */
  function FirstAlternative(s: string, fragments: seq<string>, rule: BoundaryRule, i: nat, k: nat): (r: Option<nat>)
    requires k <= |fragments|
    decreases |fragments| - k
    ensures r.Some? ==> k <= r.value < |fragments| && MatchesAt(s, fragments[r.value], rule, i)
    ensures r.Some? ==> forall j :: k <= j < r.value ==> !MatchesAt(s, fragments[j], rule, i)
    ensures r.None? ==> forall j :: k <= j < |fragments| ==> !MatchesAt(s, fragments[j], rule, i)
  {
    if k == |fragments| then None
    else if MatchesAt(s, fragments[k], rule, i) then Some(k)
    else FirstAlternative(s, fragments, rule, i, k + 1)
  }

  /**
   * `ms` is what a leftmost-first scan from offset `i` finds: valid matches, in order and
   * non-overlapping, and no alternative matches at any offset the scan passes over (before the
   * first match, between two matches, after the last).
   */
  ghost predicate LeftmostFirst(s: string, fragments: seq<string>, rule: BoundaryRule, i: nat, ms: seq<Match>) {
    ValidMatches(s, fragments, rule, ms) &&
    (ms == [] ==> Gap(s, fragments, rule, i, |s|)) &&
    (ms != [] ==> i <= ms[0].start && Gap(s, fragments, rule, i, ms[0].start)) &&
    (ms != [] ==> Gap(s, fragments, rule, EndOf(fragments, ms[|ms| - 1]), |s|)) &&
    (forall a :: 0 <= a < |ms| - 1 ==>
       EndOf(fragments, ms[a]) <= ms[a + 1].start &&
       Gap(s, fragments, rule, EndOf(fragments, ms[a]), ms[a + 1].start))
  }

  /** A match at `i`, followed by a scan from its end, is a scan from `i`. */
  lemma LeftmostFirstMatch(s: string, fragments: seq<string>, rule: BoundaryRule, i: nat, k: nat, rest: seq<Match>)
    requires k < |fragments| && MatchesAt(s, fragments[k], rule, i)
    requires forall j :: 0 <= j < k ==> !MatchesAt(s, fragments[j], rule, i)
    requires LeftmostFirst(s, fragments, rule, i + |fragments[k]|, rest)
    ensures LeftmostFirst(s, fragments, rule, i, [Match(i, k)] + rest)
  {
    var ms := [Match(i, k)] + rest;
    assert forall a :: 1 <= a < |ms| ==> ms[a] == rest[a - 1];
    if rest != [] {
      assert ms[|ms| - 1] == rest[|rest| - 1];
    }
  }

  /** Passing over an offset where nothing matches keeps the scan's description. */
  lemma LeftmostFirstSkip(s: string, fragments: seq<string>, rule: BoundaryRule, i: nat, rest: seq<Match>)
    requires NoMatchAt(s, fragments, rule, i)
    requires LeftmostFirst(s, fragments, rule, i + 1, rest)
    ensures LeftmostFirst(s, fragments, rule, i, rest)
  {
  }

  /** The matches `preg_match_all` finds from offset `i` on. */
  function ScanFrom(s: string, fragments: seq<string>, rule: BoundaryRule, i: nat): (ms: seq<Match>)
    requires NonEmptyFragments(fragments) && i <= |s|
    decreases |s| - i
    ensures LeftmostFirst(s, fragments, rule, i, ms)
  {
    if i == |s| then []
    else
      match FirstAlternative(s, fragments, rule, i, 0)
      case Some(k) =>
        var rest := ScanFrom(s, fragments, rule, i + |fragments[k]|);
        LeftmostFirstMatch(s, fragments, rule, i, k, rest);
        [Match(i, k)] + rest
      case None =>
        var rest := ScanFrom(s, fragments, rule, i + 1);
        LeftmostFirstSkip(s, fragments, rule, i, rest);
        rest
  }

  function Scan(s: string, fragments: seq<string>, rule: BoundaryRule): (ms: seq<Match>)
    requires NonEmptyFragments(fragments)
    ensures LeftmostFirst(s, fragments, rule, 0, ms)
  {
    ScanFrom(s, fragments, rule, 0)
  }

  /** `preg_match_all` finds something iff some alternative matches somewhere. */
  lemma ScanEmptyIff(s: string, fragments: seq<string>, rule: BoundaryRule)
    requires NonEmptyFragments(fragments)
    ensures Scan(s, fragments, rule) == [] <==> NoOccurrence(s, fragments, rule)
  {
    var ms := Scan(s, fragments, rule);
    if ms != [] {
      var m := ms[0];
      assert MatchesAt(s, fragments[m.alternative], rule, m.start);
      assert m.start < |s| by { assert fragments[m.alternative] != []; }
      assert !NoMatchAt(s, fragments, rule, m.start);
    }
  }

  // ---------------------------------------------------------------------------------------------
  // The matches array of preg_match_all (PREG_PATTERN_ORDER)

  /** Every match lies inside `s`. */
  predicate InBounds(s: string, fragments: seq<string>, ms: seq<Match>) {
    forall a :: 0 <= a < |ms| ==>
      ms[a].alternative < |fragments| && ms[a].start + |fragments[ms[a].alternative]| <= |s|
  }

  lemma ValidMatchesInBounds(s: string, fragments: seq<string>, rule: BoundaryRule, ms: seq<Match>)
    requires ValidMatches(s, fragments, rule, ms)
    ensures InBounds(s, fragments, ms)
  {
  }

  /** The text of each match. */
  function MatchedTexts(s: string, fragments: seq<string>, ms: seq<Match>): (texts: seq<string>)
    requires InBounds(s, fragments, ms)
    ensures |texts| == |ms|
  {
    seq(|ms|, a requires 0 <= a < |ms| => s[ms[a].start..ms[a].start + |fragments[ms[a].alternative]|])
  }

  /** A valid match's text is the fragment of its alternative. */
  lemma MatchedTextsAreFragments(s: string, fragments: seq<string>, rule: BoundaryRule, ms: seq<Match>)
    requires ValidMatches(s, fragments, rule, ms) && InBounds(s, fragments, ms)
    ensures forall a :: 0 <= a < |ms| ==> MatchedTexts(s, fragments, ms)[a] == fragments[ms[a].alternative]
  {
  }

  /**
   * Row 0 holds the whole matches; row `g` (1 to the number of groups) holds, for each match, the
   * text of group `g` when that group took part and the empty string otherwise.
   */
  function CaptureTable(s: string, fragments: seq<string>, ms: seq<Match>): (table: seq<seq<string>>)
    requires InBounds(s, fragments, ms)
    ensures |table| == |fragments| + 1 && table[0] == MatchedTexts(s, fragments, ms)
    ensures forall g :: 1 <= g < |table| ==> |table[g]| == |ms|
    ensures forall g, a :: 1 <= g < |table| && 0 <= a < |table[g]| ==>
              table[g][a] == (if ms[a].alternative == g - 1 then MatchedTexts(s, fragments, ms)[a] else "")
  {
    var texts := MatchedTexts(s, fragments, ms);
    [texts] + seq(|fragments|, g requires 0 <= g < |fragments| =>
                seq(|ms|, a requires 0 <= a < |ms| => if ms[a].alternative == g then texts[a] else ""))
  }

  /** The rows of the table one after the other, as the two nested `foreach` loops visit them. */
  function Flatten(rows: seq<seq<string>>): seq<string> {
    if rows == [] then [] else Flatten(rows[..|rows| - 1]) + rows[|rows| - 1]
  }

  // ---------------------------------------------------------------------------------------------
  // The insertion-ordered dictionary $checks_found

  /** `$checks_found[$key] = $key`: a new key goes last, an existing key keeps its place. */
  function Insert(keys: seq<string>, key: string): seq<string> {
    if key in keys then keys else keys + [key]
  }

  /** The keys of `$checks_found` after visiting `xs`: each trimmed entry that PHP does not deem empty. */
  function CollectKeys(xs: seq<string>): seq<string> {
    if xs == [] then []
    else
      var keys := CollectKeys(xs[..|xs| - 1]);
      var check := Trim(xs[|xs| - 1]);
      if PhpEmpty(check) then keys else Insert(keys, check)
  }

  /** How far into `xs` the first entry trimming to `y` sits (`|xs|` if none does). */
  function FirstOccurrence(xs: seq<string>, y: string): (r: nat)
    ensures r <= |xs|
    ensures r < |xs| ==> Trim(xs[r]) == y
    ensures forall j :: 0 <= j < r ==> Trim(xs[j]) != y
  {
    if xs == [] then 0
    else
      var init := xs[..|xs| - 1];
      var p := FirstOccurrence(init, y);
      assert forall j :: 0 <= j < |init| ==> init[j] == xs[j];
      if p < |init| then p else if Trim(xs[|xs| - 1]) == y then |init| else |xs|
  }

  predicate Distinct(keys: seq<string>) {
    forall a, b :: 0 <= a < b < |keys| ==> keys[a] != keys[b]
  }

  /** The first occurrence of a value already present in `init` does not move when an entry is added. */
  lemma FirstOccurrenceStable(xs: seq<string>, y: string)
    requires xs != [] && FirstOccurrence(xs[..|xs| - 1], y) < |xs| - 1
    ensures FirstOccurrence(xs, y) == FirstOccurrence(xs[..|xs| - 1], y)
  {
  }

  /** A value first seen in the last entry occurs first there. */
  lemma FirstOccurrenceLast(xs: seq<string>, y: string)
    requires xs != [] && FirstOccurrence(xs[..|xs| - 1], y) == |xs| - 1
    ensures FirstOccurrence(xs, y) == (if Trim(xs[|xs| - 1]) == y then |xs| - 1 else |xs|)
  {
  }

  /**
   * The dictionary holds each distinct trimmed, non-empty entry exactly once, and in the order of
   * first occurrence.
   */
  lemma {:induction false} CollectKeysSpec(xs: seq<string>)
    ensures Distinct(CollectKeys(xs))
    ensures forall y :: y in CollectKeys(xs) <==> !PhpEmpty(y) && FirstOccurrence(xs, y) < |xs|
    ensures forall a, b :: 0 <= a < b < |CollectKeys(xs)| ==>
              FirstOccurrence(xs, CollectKeys(xs)[a]) < FirstOccurrence(xs, CollectKeys(xs)[b])
  {
    if xs != [] {
      var init := xs[..|xs| - 1];
      CollectKeysSpec(init);
      var keys := CollectKeys(init);
      var check := Trim(xs[|xs| - 1]);
      forall y
        ensures y in CollectKeys(xs) <==> !PhpEmpty(y) && FirstOccurrence(xs, y) < |xs|
      {
        if FirstOccurrence(init, y) < |init| {
          FirstOccurrenceStable(xs, y);
        } else {
          FirstOccurrenceLast(xs, y);
        }
      }
      forall a | 0 <= a < |keys|
        ensures FirstOccurrence(xs, keys[a]) == FirstOccurrence(init, keys[a]) < |init|
      {
        assert keys[a] in keys;
        FirstOccurrenceStable(xs, keys[a]);
      }
      if !PhpEmpty(check) && check !in keys {
        FirstOccurrenceLast(xs, check);
        assert CollectKeys(xs) == keys + [check];
      } else {
        assert CollectKeys(xs) == keys;
      }
    }
  }

  lemma CollectKeysMember(xs: seq<string>, j: nat)
    requires j < |xs| && !PhpEmpty(Trim(xs[j]))
    ensures Trim(xs[j]) in CollectKeys(xs)
  {
    CollectKeysSpec(xs);
    assert FirstOccurrence(xs, Trim(xs[j])) <= j;
  }

  /** Entries that are empty or already seen leave the dictionary as it is. */
  lemma {:induction false} CollectKeysIgnoresRepeats(xs: seq<string>, ys: seq<string>)
    requires forall j :: 0 <= j < |ys| ==> ys[j] == "" || ys[j] in xs
    ensures CollectKeys(xs + ys) == CollectKeys(xs)
  {
    if ys != [] {
      var init := ys[..|ys| - 1];
      var y := ys[|ys| - 1];
      CollectKeysIgnoresRepeats(xs, init);
      assert (xs + ys)[..|xs + ys| - 1] == xs + init;
      assert (xs + ys)[|xs + ys| - 1] == y;
      var keys := CollectKeys(xs + init);
      if y == "" {
        assert Trim(y) == "";
      } else {
        var j :| 0 <= j < |xs| && xs[j] == y;
        if !PhpEmpty(Trim(y)) {
          CollectKeysMember(xs, j);
          assert Insert(keys, Trim(y)) == keys;
        }
      }
    } else {
      assert xs + ys == xs;
    }
  }

  lemma {:induction false} FlattenStartsWithFirstRow(rows: seq<seq<string>>)
    requires rows != []
    ensures rows[0] <= Flatten(rows)
  {
    if |rows| > 1 {
      FlattenStartsWithFirstRow(rows[..|rows| - 1]);
    } else {
      assert Flatten(rows) == Flatten([]) + rows[0];
    }
  }

  /** The group rows repeat the whole-match row, so visiting them adds no key. */
  lemma {:induction false} CollectKeysOfTable(table: seq<seq<string>>, n: nat)
    requires 1 <= n <= |table|
    requires forall g :: 1 <= g < |table| ==> |table[g]| == |table[0]|
    requires forall g, a :: 1 <= g < |table| && 0 <= a < |table[g]| && a < |table[0]| ==>
               table[g][a] == "" || table[g][a] == table[0][a]
    ensures CollectKeys(Flatten(table[..n])) == CollectKeys(table[0])
  {
    if n == 1 {
      assert table[..1][..0] == [];
      assert Flatten(table[..1]) == table[0];
    } else {
      CollectKeysOfTable(table, n - 1);
      var front := Flatten(table[..n - 1]);
      var row := table[n - 1];
      assert table[..n][..n - 1] == table[..n - 1];
      assert Flatten(table[..n]) == front + row;
      FlattenStartsWithFirstRow(table[..n - 1]);
      forall j | 0 <= j < |row|
        ensures row[j] == "" || row[j] in front
      {
        if row[j] != "" {
          assert row[j] == table[0][j] == front[j];
        }
      }
      CollectKeysIgnoresRepeats(front, row);
    }
  }

  /** git-hooks/pre-commit.php, line 401: a key matching `/\($/` is shown with a closing `)`. */
  function Display(check: string): (shown: string)
    ensures EndAnchored(check, "(") ==> shown == check + ")"
    ensures !EndAnchored(check, "(") ==> shown == check
  {
    if EndAnchored(check, "(") then check + ")" else check
  }

  /**
   * On a trimmed key, the `/\($/` test is exactly "the last character is `(`": trimming removes a
   * final newline, so the `(` followed by a newline that `$` would also accept cannot occur.
   */
  lemma DisplayOfTrimmed(x: string)
    ensures var k := Trim(x); Display(k) == k + ")" <==> (k != [] && k[|k| - 1] == '(')
    ensures var k := Trim(x); Display(k) == k <==> !(k != [] && k[|k| - 1] == '(')
  {
    TrimEndLast(TrimStart(x));
    DisplayOfUntrimmedEnd(Trim(x));
  }

  /** The same for any string whose last character `trim` would not remove. */
  lemma DisplayOfUntrimmedEnd(k: string)
    requires k != [] ==> !IsTrimmable(k[|k| - 1])
    ensures Display(k) == k + ")" <==> (k != [] && k[|k| - 1] == '(')
    ensures Display(k) == k <==> !(k != [] && k[|k| - 1] == '(')
  {
    if k != [] && k[|k| - 1] == '(' {
      assert k[|k| - 1..] == "(";
    }
    if Display(k) == k + ")" {
      assert |Display(k)| != |k|;
    }
  }

  /** The two markers have no trimmable end, so each is reported exactly as written. */
  lemma MarkersReportedUnchanged(k: nat)
    requires k < |Checks|
    ensures Trim(Checks[k]) == Checks[k] && Display(Checks[k]) == Checks[k]
  {
    assert Checks[k][0] == Checks[k][|Checks[k]| - 1];
    TrimUntrimmed(Checks[k]);
    DisplayOfTrimmed(Checks[k]);
  }

  /** The dictionary keys the check reports for `contents`. */
  function FoundChecks(contents: string, fragments: seq<string>, rule: BoundaryRule): seq<string>
    requires NonEmptyFragments(fragments)
  {
    var ms := Scan(contents, fragments, rule);
    ValidMatchesInBounds(contents, fragments, rule, ms);
    CollectKeys(MatchedTexts(contents, fragments, ms))
  }

  /** git-hooks/pre-commit.php, lines 378-384: quote the fragments, then read back the literal each alternative stands for. */
  method Alternatives(checks: seq<string>) returns (fragments: seq<string>)
    ensures fragments == checks
  {
    var quoted := new string[|checks|](i requires 0 <= i < |checks| => checks[i]);
    QuoteAll(quoted);
    var patterns := quoted[..];
    fragments := seq(|patterns|, k requires 0 <= k < |patterns| => LiteralOf(patterns[k]));
    forall k | 0 <= k < |checks|
      ensures fragments[k] == checks[k]
    {
      LiteralOfQuote(checks[k]);
    }
  }

  /** git-hooks/pre-commit.php, lines 387-397: collect the keys of the table, row by row and entry by entry. */
  method CollectFound(table: seq<seq<string>>) returns (found: seq<string>)
    ensures found == CollectKeys(Flatten(table))
  {
    found := [];
    for r := 0 to |table|
      invariant found == CollectKeys(Flatten(table[..r]))
    {
      var row := table[r];
      ghost var front := Flatten(table[..r]);
      assert Flatten(table[..r + 1]) == front + row by {
        assert table[..r + 1][..r] == table[..r];
      }
      assert front + row[..0] == front;
      for c := 0 to |row|
        invariant found == CollectKeys(front + row[..c])
      {
        var check := Trim(row[c]);
        assert (front + row[..c + 1])[..|front + row[..c + 1]| - 1] == front + row[..c];
        assert (front + row[..c + 1])[|front + row[..c + 1]| - 1] == row[c];
        if !PhpEmpty(check) {
          found := Insert(found, check);
        }
      }
      assert row[..|row|] == row;
    }
    assert table[..|table|] == table;
  }

  /** git-hooks/pre-commit.php, lines 399-406: the text reported for each key. */
  method DisplayAll(found: seq<string>) returns (reported: seq<string>)
    ensures |reported| == |found|
    ensures forall i :: 0 <= i < |found| ==> reported[i] == Display(found[i])
  {
    reported := [];
    for i := 0 to |found|
      invariant |reported| == i
      invariant forall j :: 0 <= j < i ==> reported[j] == Display(found[j])
    {
      var check := found[i];
      // a trailing `(` is closed in the message
      if EndAnchored(check, "(") {
        check := check + ")";
      }
      reported := reported + [check];
    }
  }

  /**
   * `processFile` of the blacklisted-strings check on a file's contents: it fails iff some fragment
   * occurs where its alternative matches, and it reports every distinct matched fragment once, in
   * the order of first occurrence, with `)` added after a trailing `(`.
   */
  method ProcessFile(contents: string, checks: seq<string>, rule: BoundaryRule)
    returns (succeed: bool, reported: seq<string>)
    requires NonEmptyFragments(checks)
    ensures succeed <==> NoOccurrence(contents, checks, rule)
    ensures succeed ==> reported == []
    ensures |reported| == |FoundChecks(contents, checks, rule)|
    ensures forall i :: 0 <= i < |reported| ==> reported[i] == Display(FoundChecks(contents, checks, rule)[i])
  {
    succeed := true;
    reported := [];
    var fragments := Alternatives(checks);
    var ms := Scan(contents, fragments, rule);
    ScanEmptyIff(contents, fragments, rule);
    ValidMatchesInBounds(contents, fragments, rule, ms);
    if |ms| > 0 {
      var table := CaptureTable(contents, fragments, ms);
      var found := CollectFound(table);
      CollectKeysOfTable(table, |table|);
      assert table[..|table|] == table;
      reported := DisplayAll(found);
      succeed := false;
    }
  }

  // ---------------------------------------------------------------------------------------------
  // Properties

  /** Each key the check reports is the trimmed text of some match, and each such text is reported. */
  lemma FoundChecksMeaning(contents: string, fragments: seq<string>, rule: BoundaryRule, y: string)
    requires NonEmptyFragments(fragments)
    ensures Distinct(FoundChecks(contents, fragments, rule))
    ensures y in FoundChecks(contents, fragments, rule) <==>
              !PhpEmpty(y) &&
              exists a :: 0 <= a < |Scan(contents, fragments, rule)| &&
                Trim(fragments[Scan(contents, fragments, rule)[a].alternative]) == y
  {
    var ms := Scan(contents, fragments, rule);
    var texts := MatchedTexts(contents, fragments, ms);
    MatchedTextsAreFragments(contents, fragments, rule, ms);
    CollectKeysSpec(texts);
    if !PhpEmpty(y) && exists a :: 0 <= a < |ms| && Trim(fragments[ms[a].alternative]) == y {
      var a :| 0 <= a < |ms| && Trim(fragments[ms[a].alternative]) == y;
      CollectKeysMember(texts, a);
    }
  }

  /**
   * As written, `\b` in front of a fragment that begins with a non-word character demands a word
   * character before it. So such a fragment is never matched at offset 0 or after a newline or a space.
   */
  lemma WordBoundaryMissesLineStart(s: string, fragment: string, p: nat)
    requires fragment != [] && !IsWordChar(fragment[0])
    requires p == 0 || (p <= |s| && !IsWordChar(s[p - 1]))
    ensures !MatchesAt(s, fragment, WordBoundary, p)
  {
    if IsPrefixAt(fragment, s, p) {
      assert s[p] == fragment[0];
    }
  }

  /** A file made of a conflict-marker line passes the check as written. */
  lemma ConflictMarkerLinePasses()
    ensures NoOccurrence("<<<<<<<\n", Checks, WordBoundary)
  {
    var s := "<<<<<<<\n";
    forall p: nat | p < |s|
      ensures NoMatchAt(s, Checks, WordBoundary, p)
    {
      forall k | 0 <= k < |Checks|
        ensures !MatchesAt(s, Checks[k], WordBoundary, p)
      {
        assert p == 0 || s[p - 1] == '<';
        WordBoundaryMissesLineStart(s, Checks[k], p);
      }
    }
  }

  /** With the corrected rule, any fragment occurring at offset 0 or after a non-word character is matched. */
  lemma LineStartFindsMarker(s: string, fragments: seq<string>, k: nat, p: nat)
    requires k < |fragments| && IsPrefixAt(fragments[k], s, p) && fragments[k] != []
    requires p == 0 || !IsWordChar(s[p - 1])
    ensures MatchesAt(s, fragments[k], LineStart, p)
    ensures !NoOccurrence(s, fragments, LineStart)
  {
    assert p < |s|;
    assert !NoMatchAt(s, fragments, LineStart, p);
  }

  /** The conflict-marker line that passes as written fails under the corrected rule. */
  lemma ConflictMarkerLineFailsCorrected()
    ensures !NoOccurrence("<<<<<<<\n", Checks, LineStart)
  {
    assert IsPrefixAt(Checks[0], "<<<<<<<\n", 0);
    LineStartFindsMarker("<<<<<<<\n", Checks, 0, 0);
  }

  /** The two rules agree on fragments that begin with a word character. */
  lemma RulesAgreeOnWordFragments(s: string, fragment: string, p: nat)
    requires fragment != [] && IsWordChar(fragment[0])
    ensures MatchesAt(s, fragment, WordBoundary, p) <==> MatchesAt(s, fragment, LineStart, p)
  {
    if IsPrefixAt(fragment, s, p) {
      assert s[p] == fragment[0];
    }
  }
}
