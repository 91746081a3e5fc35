# Drupal code check: the pre-commit gate and the JS object-call sniff

This project models two parts of jover/drupal-code-check in Dafny and proves properties of the model.

1. **The Git pre-commit gate** (git-hooks/pre-commit.php).
   - The application runs two checks, a PHP check and a blacklisted-strings check. It throws when either fails.
   - Each check filters the committed paths with an extension pattern and an excluded-path pattern. It then processes every surviving path, and a failing path clears the check's `succeed` flag.
   - The PHP check runs three tools in turn: the linter (`php -l`), the beautifier (phpcbf) and the sniffer (phpcs). Each step runs only when the one before it succeeded.
   - The blacklisted-strings check looks for Git conflict markers in each file's text. It quotes the markers with `preg_quote` and joins them into `\b(...)|\b(...)`.
   - Each distinct marker it finds is reported once.
2. **The JavaScript object-call sniff** (`ForbiddenObjectFunctionCallsSniff::process`). Given a token array and a position, it reports a call `receiver.method(` whose lower-cased name is forbidden (`console.log`, ...).

The modules are:
- `Wrappers`: `Option`.
- `Text`: PCRE word characters and the `$` anchor, and PHP's `strtolower`, `trim` and `empty`.
- `FileSelection`: `filterFiles`.
- `PhpCodeCheck`: `DrupalPhpCodeCheck`, reduced to exit statuses.
- `BlacklistedStrings`: `DrupalBlacklistedStringsCheck`.
- `PreCommit`: the `DrupalCodeCheck` base class as the class `CodeCheck`, and `DrupalCodeCheckApplication` as the class `Application`.
- `ForbiddenObjectFunctionCalls`: the sniff.

How the source maps onto the model:
- The imperative parts stay imperative:
  - `filterFiles` is a loop, and `processFiles` updates the `succeed` field through `setSucceed`.
  - The `preg_quote` loop rewrites an array in place.
  - The dictionary of found markers is filled in nested loops.
- Each of those methods is proved against a specification function.
- The sniff is pure. It is a function over a token sequence, and its whitespace-skipping lookups are recursive functions.

### Regular expressions

Regular expressions are modelled by what they match:
- The extension pattern `/(\.inc)|...|(\.yml)$/` anchors only its last alternative, because alternation binds looser than `$`. So `.inc` ... `.txt` may occur anywhere in a path, while `.yml` must end it. `$` also accepts a final newline (`FileSelection.ExtensionPatternMeaning`).
- The excluded-path pattern `(^prefix.+)` needs the prefix at offset 0, then one more character that is not a newline.
- `preg_match_all` with the blacklist pattern is an explicit leftmost-first scan with these rules:
  - at each offset the alternatives are tried in order, and the first that matches wins;
  - a match is never overlapped;
  - `\b` compares the ASCII word-character status of the characters on either side, and a position outside the text counts as non-word.
- The result array (PREG_PATTERN_ORDER) is built as row 0 plus one row per group. A group that did not take part reads as "".

### Where the code falls short of its own stated intent

The model follows the code in each case:
- **Extensions.** The comment at git-hooks/pre-commit.php:150 says the filter keeps "files with allowed extensions". The pattern at line 131 anchors only `.yml`. So any path that *contains* `.js`, `.php` and so on passes, for example `package.json` (`FileSelection.UnanchoredExtensionQuirk`).
- **Line-start markers.** The comment at git-hooks/pre-commit.php:364 says the markers are the "code conflicts resulting from Git merge", which Git writes at the start of a line. The `\b` at line 384 rejects a marker in that position; see Findings.
- **Fixer statuses.** At git-hooks/pre-commit.php:274-291, phpcbf's "fixed some issues" status (1) and every other non-zero status give the same `false`. An operation error is not told apart from a style failure. The model's `Diagnosis` keeps only which message is printed.
- **Short-circuit.** A fixer failure skips the sniffer (git-hooks/pre-commit.php:226-228). The model's `PhpCodeCheck.ProcessFile` has the sniffer run iff the lint and fixer statuses are both 0.
- **Independent checks.** The blacklist check processes every selected path, including paths that failed lint (git-hooks/pre-commit.php:454-458). `PreCommit.Application.DoRun` always runs both checks.
- **Parenthesis lookup.** The sniff looks for the parenthesis from `stackPtr + 2`, not from the token after the method name (ForbiddenObjectFunctionCallsSniff.php:54). So `console. log(` is not reported (`ForbiddenObjectFunctionCalls.SpaceAfterOperatorNotReported`).

## Model

| member | source | states |
|---|---|---|
| `Text.Lower` | DrupalCodeCheck/Sniffs/JS/ForbiddenObjectFunctionCallsSniff.php:63-67 | `strtolower`: the length is kept, and each ASCII capital maps to its lower-case letter; every other character is unchanged |
| `Text.LowerConcat` | DrupalCodeCheck/Sniffs/JS/ForbiddenObjectFunctionCallsSniff.php:63-67 | lower-casing a concatenation is the same as lower-casing each part |
| `Text.TrimUntrimmed` | git-hooks/pre-commit.php:391 | `trim` leaves a string unchanged when neither end is one of the six default trim characters |
| `Text.TrimEndLast` | git-hooks/pre-commit.php:391 | after trimming, the last character (if any) is not a trim character |
| `Text.Trim` | git-hooks/pre-commit.php:391 | `trim` with its default list: strips space, tab, LF, CR, NUL and vertical tab from both ends |
| `Text.PhpEmpty` | git-hooks/pre-commit.php:393 | `empty` on a string: true exactly for "" and "0" |
| `FileSelection.FilterFiles` | git-hooks/pre-commit.php:149-161 | the loop that unsets failing entries yields exactly `Select(files)`: the entries that pass both pattern tests, in their original order |
| `FileSelection.SelectIsOrderedSubsequence` | git-hooks/pre-commit.php:149-161 | the surviving keys strictly increase, each survivor is the input entry at its key, and a position survives iff its path is selected |
| `FileSelection.SelectMembership` | git-hooks/pre-commit.php:149-161 | a path is returned iff it was committed and passes both tests |
| `FileSelection.ExtensionPatternMeaning` | git-hooks/pre-commit.php:107-131 | the extension pattern matches iff the path contains one of `.inc` ... `.txt` anywhere, or ends in `.yml` (optionally followed by one newline) |
| `FileSelection.BarePrefixNotExcluded` | git-hooks/pre-commit.php:133-147 | none of the six excluded prefixes is excluded by itself, because `.+` needs at least one more character |
| `FileSelection.ExcludedPathDropped` | git-hooks/pre-commit.php:147-158 | a path matching an excluded prefix followed by a non-newline character is dropped, even when its extension is allowed |
| `FileSelection.PhpFileKept` | git-hooks/pre-commit.php:149-158 | a path ending in `.php` that no excluded prefix matches is kept |
| `FileSelection.UnanchoredExtensionQuirk` | git-hooks/pre-commit.php:131 | `package.json` passes the extension test through its `.js`; below `web/core/` it is still dropped |
| `PhpCodeCheck.Diagnose` | git-hooks/pre-commit.php:220-329 | the three-way branch shared by the lint status (220-236, codes 0/255), the phpcbf status (274-286, 0/1) and the phpcs status (317-329, 0/1): the pass code gives Clean, the fail code gives Problems, and anything else gives InvalidOperation (each as an iff) |
| `PhpCodeCheck.CodeFixer` | git-hooks/pre-commit.php:253-294 | `codeFixer` succeeds iff phpcbf's status is 0; status 1 and every other status fail, each with its own diagnosis |
| `PhpCodeCheck.CodeSniffer` | git-hooks/pre-commit.php:305-337 | `codeSniffer` succeeds iff phpcs's status is 0; status 1 and every other status fail |
| `PhpCodeCheck.ProcessFile` | git-hooks/pre-commit.php:213-242 | succeeds iff all three statuses are 0; the beautifier runs iff the lint status is 0, and the sniffer runs iff the lint status and the beautifier status are both 0; each tool run has its diagnosis, in order |
| `BlacklistedStrings.Checks` | git-hooks/pre-commit.php:362-368 | `getChecks`: the two merge-conflict markers `<<<<<<<` and `>>>>>>>`, in that order |
| `BlacklistedStrings.Quote` | git-hooks/pre-commit.php:380 | `preg_quote` without a delimiter: each of `. \ + * ? [ ^ ] $ ( ) { } = ! < > \| : - #` gets a backslash, NUL becomes `\000`, and every other character is kept |
| `BlacklistedStrings.QuoteChar` | git-hooks/pre-commit.php:380 | `preg_quote` on one character, as above |
| `BlacklistedStrings.StartOk` | git-hooks/pre-commit.php:384 | the `\b` in front of each alternative: the characters on either side of the position differ in word-character status (outside the text counts as non-word); under the corrected rule, only a fragment starting with a word character must not follow one |
| `BlacklistedStrings.MatchesAt` | git-hooks/pre-commit.php:384 | an alternative `\b(q)` matches at an offset iff its fragment occurs there and the start condition holds |
| `BlacklistedStrings.LiteralOfQuote` | git-hooks/pre-commit.php:379-381 | `preg_quote` loses nothing: the quoted pattern stands for exactly the original fragment |
| `BlacklistedStrings.QuoteAll` | git-hooks/pre-commit.php:379-381 | rewrites every array entry in place with its quoted form |
| `BlacklistedStrings.Alternatives` | git-hooks/pre-commit.php:378-384 | quoting the checks and reading back the literal of each alternative gives the checks themselves |
| `BlacklistedStrings.FirstAlternative` | git-hooks/pre-commit.php:384 | the first alternative, in pattern order, that matches at an offset; None iff no alternative matches there |
| `BlacklistedStrings.ScanFrom` | git-hooks/pre-commit.php:384-386 | the matches are valid, and each is the first alternative matching at its start; they are in order and do not overlap, and nothing matches at any offset the scan passes over |
| `BlacklistedStrings.Scan` | git-hooks/pre-commit.php:386 | `preg_match_all` from offset 0 is a leftmost-first scan of the whole contents |
| `BlacklistedStrings.ScanEmptyIff` | git-hooks/pre-commit.php:386 | `preg_match_all` returns 0 iff no alternative matches at any offset |
| `BlacklistedStrings.MatchedTextsAreFragments` | git-hooks/pre-commit.php:386 | the text of each match is the fragment of the alternative that produced it |
| `BlacklistedStrings.CaptureTable` | git-hooks/pre-commit.php:386-390 | PREG_PATTERN_ORDER: row 0 holds the whole matches, and row g holds each match's text when group g produced it and "" otherwise |
| `BlacklistedStrings.CollectKeysSpec` | git-hooks/pre-commit.php:387-397 | `$checks_found` holds each distinct trimmed, non-empty entry exactly once, in first-occurrence order |
| `BlacklistedStrings.CollectKeysIgnoresRepeats` | git-hooks/pre-commit.php:391-395 | entries that are "" or already seen leave the dictionary unchanged |
| `BlacklistedStrings.CollectKeysOfTable` | git-hooks/pre-commit.php:389-397 | visiting the group rows after row 0 adds no key |
| `BlacklistedStrings.CollectFound` | git-hooks/pre-commit.php:387-397 | the nested loops over the table build the keys of its entries in visiting order |
| `BlacklistedStrings.Display` | git-hooks/pre-commit.php:400-403 | `)` is added iff the key matches `/\($/`, read as PCRE does: it ends in `(`, optionally followed by one newline |
| `BlacklistedStrings.DisplayOfTrimmed` | git-hooks/pre-commit.php:391-403 | on a trimmed key (line 391), `)` is added iff its last character is `(`, as the comment at line 400 says; trimming removes a final newline, so the "`(` then newline" case cannot arise |
| `BlacklistedStrings.DisplayOfUntrimmedEnd` | git-hooks/pre-commit.php:400-403 | the same for any string whose last character `trim` would not remove |
| `BlacklistedStrings.MarkersReportedUnchanged` | git-hooks/pre-commit.php:362-403 | each of the two markers is its own trim and is reported without a `)` |
| `BlacklistedStrings.DisplayAll` | git-hooks/pre-commit.php:399-406 | one reported string per key, in key order, each with the `)` rule applied |
| `BlacklistedStrings.ProcessFile` | git-hooks/pre-commit.php:373-416 | fails iff some fragment occurrence satisfies the pattern; on success nothing is reported; on failure the distinct matched fragments are reported once each, in first-occurrence order |
| `BlacklistedStrings.FoundChecksMeaning` | git-hooks/pre-commit.php:386-399 | the reported keys are distinct, and a string is reported iff it is non-empty and is the trimmed fragment of some match |
| `BlacklistedStrings.WordBoundaryMissesLineStart` | git-hooks/pre-commit.php:384 | as written, a fragment starting with a non-word character never matches at offset 0 or after a non-word character |
| `BlacklistedStrings.ConflictMarkerLinePasses` | git-hooks/pre-commit.php:384 | as written, the text `<<<<<<<` plus a newline contains no occurrence |
| `BlacklistedStrings.LineStartFindsMarker` | git-hooks/pre-commit.php:384 | under the corrected rule, a fragment at offset 0 or after a non-word character is matched |
| `BlacklistedStrings.ConflictMarkerLineFailsCorrected` | git-hooks/pre-commit.php:384 | under the corrected rule, the conflict-marker line is found |
| `BlacklistedStrings.RulesAgreeOnWordFragments` | git-hooks/pre-commit.php:384 | for fragments that begin with a word character, the corrected rule and `\b` agree |
| `PreCommit.AllPass` | git-hooks/pre-commit.php:92-100 | the flag left by the loop is true iff every processed path passes |
| `PreCommit.CodeCheck.ProcessFile` | git-hooks/pre-commit.php:213-416 | dispatches to the subclass's `processFile`: the PHP check's (213-242) passes iff all three statuses are 0, and the blacklist check's (373-416) passes iff nothing matches |
| `PreCommit.CodeCheck.GetSucceed` | git-hooks/pre-commit.php:57-59 | `getSucceed`: the current value of the `succeed` field |
| `PreCommit.CodeCheck.SetSucceed` | git-hooks/pre-commit.php:47-49 | sets the flag and nothing else |
| `PreCommit.CodeCheck.ProcessFiles` | git-hooks/pre-commit.php:88-101 | every filtered path is processed in order, even after a failure; the flag is cleared iff some path fails |
| `PreCommit.CodeCheck.DoRun` | git-hooks/pre-commit.php:28-39 | after `setSucceed(TRUE)` and `processFiles`, the flag is true iff every selected path passes |
| `PreCommit.Application.DoRun` | git-hooks/pre-commit.php:440-463 | both checks always run, the PHP check first; the application succeeds iff both pass, and throws iff it does not |
| `PreCommit.RejectionMeaning` | git-hooks/pre-commit.php:448-462 | the commit is rejected iff some committed, selected path fails a tool or contains a marker |
| `PreCommit.ConflictMarkerCommitted` | git-hooks/pre-commit.php:384 | a clean `a.php` holding a conflict-marker line passes both checks as written, and fails the blacklist check under the corrected rule |
| `ForbiddenObjectFunctionCalls.ForbiddenFunctions` | DrupalCodeCheck/Sniffs/JS/ForbiddenObjectFunctionCallsSniff.php:22-28 | the keys of `forbiddenFunctions`: `console.error`, `console.info`, `console.log`, `window.alert` |
| `ForbiddenObjectFunctionCalls.SniffMode` | DrupalCodeCheck/Sniffs/JS/ForbiddenObjectFunctionCallsSniff.php:22-28 | the sniff does not set `patternMatch`, so the inherited `false` holds and the names are compared exactly (line 88) |
| `ForbiddenObjectFunctionCalls.PhpIndex` | DrupalCodeCheck/Sniffs/JS/ForbiddenObjectFunctionCallsSniff.php:58-61 | the array index a lookup result stands for: a found position, and 0 for `false` |
| `ForbiddenObjectFunctionCalls.TokenAt` | DrupalCodeCheck/Sniffs/JS/ForbiddenObjectFunctionCallsSniff.php:58-61 | `$tokens[$lookup]`, with `$tokens[false]` reading entry 0 |
| `ForbiddenObjectFunctionCalls.Candidate` | DrupalCodeCheck/Sniffs/JS/ForbiddenObjectFunctionCallsSniff.php:63-67 | the name tested: `strtolower` of receiver, operator and method contents concatenated |
| `ForbiddenObjectFunctionCalls.PhpSubstr` | DrupalCodeCheck/Sniffs/JS/ForbiddenObjectFunctionCallsSniff.php:86 | `substr($pattern, 1, -2)`: drops the first character and the last two, and gives "" for a string shorter than three |
| `ForbiddenObjectFunctionCalls.FindPrevious` | DrupalCodeCheck/Sniffs/JS/ForbiddenObjectFunctionCallsSniff.php:52 | the nearest non-whitespace token at or before `start` with only whitespace after it, or `false` when everything up to `start` is whitespace |
| `ForbiddenObjectFunctionCalls.FindNext` | DrupalCodeCheck/Sniffs/JS/ForbiddenObjectFunctionCallsSniff.php:53-54 | the nearest non-whitespace token at or after `start` with only whitespace before it, or `false` when everything from `start` on is whitespace |
| `ForbiddenObjectFunctionCalls.FindPreviousIs` | DrupalCodeCheck/Sniffs/JS/ForbiddenObjectFunctionCallsSniff.php:52 | the previous lookup from `start` lands on a significant token whenever only whitespace lies between that token and `start` |
| `ForbiddenObjectFunctionCalls.FindNextIs` | DrupalCodeCheck/Sniffs/JS/ForbiddenObjectFunctionCallsSniff.php:53-54 | the next lookup from `start` lands on a significant token whenever only whitespace lies between `start` and that token |
| `ForbiddenObjectFunctionCalls.Decide` | DrupalCodeCheck/Sniffs/JS/ForbiddenObjectFunctionCallsSniff.php:69-93 | exact mode reports iff the name is in the list, and pattern mode reports iff some replacement was made; the finding carries the position and the name, and its pattern is null iff the mode is exact |
| `ForbiddenObjectFunctionCalls.Process` | DrupalCodeCheck/Sniffs/JS/ForbiddenObjectFunctionCallsSniff.php:49-97 | a finding requires an operator at `stackPtr` and a `T_STRING` as the previous significant token, where the finding sits; it also requires a `T_STRING` right after the operator, and the name is the lower-cased concatenation; exact mode gives a listed name and a null pattern, and pattern mode gives a non-zero count |
| `ForbiddenObjectFunctionCalls.PrevLookupFallback` | DrupalCodeCheck/Sniffs/JS/ForbiddenObjectFunctionCallsSniff.php:52-59 | when the previous lookup returns `false`, `$tokens[false]` is whitespace or the operator itself |
| `ForbiddenObjectFunctionCalls.NextLookupsAgree` | DrupalCodeCheck/Sniffs/JS/ForbiddenObjectFunctionCallsSniff.php:53-54 | whitespace after the operator makes both forward lookups land on the same token; otherwise the next token is the one right after the operator |
| `ForbiddenObjectFunctionCalls.ShapeDecides` | DrupalCodeCheck/Sniffs/JS/ForbiddenObjectFunctionCallsSniff.php:52-93 | whenever the layout `T_STRING`, whitespace, operator, `T_STRING`, whitespace, `(` is there, the outcome is the decision on the lower-cased name, reported at the receiver |
| `ForbiddenObjectFunctionCalls.NoShapeNoFinding` | DrupalCodeCheck/Sniffs/JS/ForbiddenObjectFunctionCallsSniff.php:57-62 | without that layout there is no finding, provided the first token is not `(` |
| `ForbiddenObjectFunctionCalls.ExactModeIff` | DrupalCodeCheck/Sniffs/JS/ForbiddenObjectFunctionCallsSniff.php:57-91 | exact mode reports iff the layout is there and the lower-cased name is in the list (first token not `(`) |
| `ForbiddenObjectFunctionCalls.LeadingParenthesisQuirk` | DrupalCodeCheck/Sniffs/JS/ForbiddenObjectFunctionCallsSniff.php:54-61 | with `(` as the first token and nothing after `console . log`, `$tokens[false]` makes the sniff report a call that has no parenthesis |
| `ForbiddenObjectFunctionCalls.FindPreviousIgnoresContent` | DrupalCodeCheck/Sniffs/JS/ForbiddenObjectFunctionCallsSniff.php:52 | the previous lookup depends only on token codes |
| `ForbiddenObjectFunctionCalls.FindNextIgnoresContent` | DrupalCodeCheck/Sniffs/JS/ForbiddenObjectFunctionCallsSniff.php:53-54 | the next lookup depends only on token codes |
| `ForbiddenObjectFunctionCalls.CaseInsensitive` | DrupalCodeCheck/Sniffs/JS/ForbiddenObjectFunctionCallsSniff.php:63-67 | token arrays that agree in codes and in lower-cased contents get the same outcome |
| `ForbiddenObjectFunctionCalls.MixedCaseCallReported` | DrupalCodeCheck/Sniffs/JS/ForbiddenObjectFunctionCallsSniff.php:63-93 | `Console.Log(` is reported as `console.log` at the receiver, with a null pattern |
| `ForbiddenObjectFunctionCalls.LongerReceiverNotReported` | DrupalCodeCheck/Sniffs/JS/ForbiddenObjectFunctionCallsSniff.php:87-91 | whole-name comparison: `myconsole.log(` is not reported |
| `ForbiddenObjectFunctionCalls.SpaceBeforeParenthesisReported` | DrupalCodeCheck/Sniffs/JS/ForbiddenObjectFunctionCallsSniff.php:54-61 | `console.log (` is reported |
| `ForbiddenObjectFunctionCalls.SpaceAfterOperatorNotReported` | DrupalCodeCheck/Sniffs/JS/ForbiddenObjectFunctionCallsSniff.php:53-61 | whitespace right after the operator means no finding, because the parenthesis lookup from `stackPtr + 2` lands on the method name |
| `ForbiddenObjectFunctionCalls.OnlyOperatorPositions` | DrupalCodeCheck/Sniffs/JS/ForbiddenObjectFunctionCallsSniff.php:38-58 | positions registered for `T_STRING` or `T_FUNCTION` never produce a finding from this override |

## Left out

- `fetchCommittedFiles` (git-hooks/pre-commit.php:72-83) runs git. The committed paths are the `Workspace.committed` input.
- Running `php -l`, phpcbf and phpcs through ProcessBuilder, including the `--config-set` call whose status is ignored. Each tool is its exit status on the path (`Workspace.statuses`); `isSuccessful()` is taken as "status is 0".
- `file_get_contents` is `Workspace.contents`. A file that cannot be read is not modelled.
- Console output is not modelled: `writeln`, `bootstrapMessage`, the tools' captured output and the exception message. The diagnoses and reported fragments stand for the messages; `thrown` stands for the exception.
- Symfony's `run()` wrapper around `doRun`, and `setAutoExit`, are not modelled.
- `filterFiles` returns the array with its surviving keys. The model returns the surviving paths as a sequence (`KeptKeys` records their keys). The loop that unsets entries in place is modelled as building that sequence.
- scripts/git-hooks/GitHooks.php is not part of this model (symlinks, permissions, a Composer callback).
- DrupalCodeCheck/Sniffs/PHP/ForbiddenFunctionsSniff.php and DrupalCodeCheck/Sniffs/JS/ForbiddenFunctionsSniff.php, and the parent `Generic_Sniffs_PHP_ForbiddenFunctionsSniff` are not part of this model. Its `register`, its construction of `forbiddenFunctionNames` and its `addError` are not modelled. The names are an input; a finding is the returned value.
- `ForbiddenObjectFunctionCalls.Decide`: pattern mode (`preg_replace` with the name list as patterns and replacements) is an abstract function returning the new string and the replacement count. The regular-expression engine is not modelled.
- PHPCS's JS tokenizer is not modelled. Tokens are given as (code, content) pairs, and codes other than the five the sniff uses are `TOther`.
- `ForbiddenObjectFunctionCalls.Process`: `in_array` uses loose comparison; between two strings the model takes this to be plain equality. Numeric strings, which PHP would compare as numbers, are not modelled.
- `ForbiddenObjectFunctionCalls.PhpSubstr` follows PHP 8's `substr`, which gives "" when the string is too short, instead of PHP 7's `false`.
- `Text.Lower`: `strtolower` is ASCII-only, as PHP 8 does it; locale-dependent lower-casing is not modelled.
- `ForbiddenObjectFunctionCalls.NoShapeNoFinding` and `ForbiddenObjectFunctionCalls.ExactModeIff` require that the first token is not `(`. PHPCS's JS tokenizer begins every file with an open-tag token, so this holds for every array the sniff receives. `ForbiddenObjectFunctionCalls.LeadingParenthesisQuirk` shows what `$tokens[false]` would do otherwise.
- `BlacklistedStrings.ProcessFile` and `BlacklistedStrings.Alternatives` hold only for fragments without `/`. `preg_quote` is called without a delimiter (git-hooks/pre-commit.php:380), so a `/` in a fragment would end the `/.../` pattern early. `preg_match_all` would then fail and return false, and the check would pass. The two markers contain no `/`.
- `BlacklistedStrings.Scan` models PCRE only for a pattern made of literal alternatives, each behind a start condition. It is not a general regular-expression engine.
- `PreCommit.CodeCheck` starts with `succeed` false, which stands for PHP's unset `null`.

## Findings

| source | as written | input that shows it | evidently intended | confidence | as-written member | corrected member |
|---|---|---|---|---|---|---|
| git-hooks/pre-commit.php:384 | each marker is preceded by `\b`. Both markers start with `<` or `>`, which are non-word characters, so `\b` holds only after a word character: a marker at the start of the file, after a newline or after a space is never found | a file consisting of the line `<<<<<<<` followed by a newline: no match, so the check passes | conflict markers are recognised at the start of a line, which is where Git writes them | high (proved on the model; not executed) | `BlacklistedStrings.ConflictMarkerLinePasses` | `BlacklistedStrings.ConflictMarkerLineFailsCorrected` |

The as-written rule is `BoundaryRule.WordBoundary`; `BlacklistedStrings.WordBoundaryMissesLineStart` states it in general. The corrected rule, `BoundaryRule.LineStart`, keeps `\b` only for fragments that begin with a word character (`BlacklistedStrings.RulesAgreeOnWordFragments`). In front of a fragment that begins with a non-word character, such as both markers, it drops the boundary altogether. So the rule is broader than its name: a marker is found at any offset, mid-line (`x <<<<<<<`) as well as at the start of a line. `BlacklistedStrings.LineStartFindsMarker` `BlacklistedStrings.LineStartFindsMarker` proves it finds a marker at the start of a line. The gate (`PreCommit.Application.DoRun`) takes the rule as a parameter. `PreCommit.ConflictMarkerCommitted` shows end to end that a clean `a.php` whose first line is a conflict marker is committed under the as-written rule and rejected under the corrected one.
