/**
 * Which committed files the gate looks at (`filterFiles` in git-hooks/pre-commit.php): a file
 * survives when the extension pattern matches it and the excluded-path pattern does not.
 */
module FileSelection {
  import opened Text

  /** The allowed extensions, in the order the pattern lists them. */
  const AllowedExtensions: seq<string> :=
    ["inc", "install", "js", "md", "module", "php", "profile", "test", "theme", "txt", "yml"]

  /** The excluded path prefixes (the pattern writes each `/` as `\/`). */
  const ExcludedPaths: seq<string> :=
    ["web/core/", "web/libraries/contrib/", "web/modules/contrib/",
     "web/profiles/contrib/", "web/themes/contrib/", "drush/contrib/"]

  /**
   * One alternative of the extension pattern `(\.e1)|(\.e2)|...|(\.en)$`. Alternation binds
   * looser than `$`, so the anchor belongs to the last alternative only.
   */
  datatype Alternative = Alternative(literal: string, anchored: bool)

  /** The alternatives of the pattern that `implode` builds from an extension list. */
  function ExtensionAlternatives(exts: seq<string>): seq<Alternative> {
    seq(|exts|, i requires 0 <= i < |exts| => Alternative("." + exts[i], i == |exts| - 1))
  }

  predicate AlternativeMatches(alt: Alternative, path: string) {
    if alt.anchored then EndAnchored(path, alt.literal) else Contains(path, alt.literal)
  }

  /** `preg_match` of the extension pattern succeeds on `path`. */
  predicate HasAllowedExtension(path: string) {
    var alts := ExtensionAlternatives(AllowedExtensions);
    exists i :: 0 <= i < |alts| && AlternativeMatches(alts[i], path)
  }

  /** The alternative `(^prefix.+)`: the prefix at offset 0, then at least one character other than a newline. */
  predicate MatchesExcludedPrefix(prefix: string, path: string) {
    IsPrefixAt(prefix, path, 0) && |path| > |prefix| && path[|prefix|] != '\n'
  }

  /** `preg_match` of the excluded-path pattern succeeds on `path`. */
  predicate IsExcluded(path: string) {
    exists i :: 0 <= i < |ExcludedPaths| && MatchesExcludedPrefix(ExcludedPaths[i], path)
  }

  /** A file is kept when neither `unset` of the loop body removes it. */
  predicate Selected(path: string) {
    HasAllowedExtension(path) && !IsExcluded(path)
  }

  /** The files `filterFiles` returns, in iteration order. */
  function Select(files: seq<string>): seq<string> {
    if files == [] then []
    else
      var last := files[|files| - 1];
      Select(files[..|files| - 1]) + (if Selected(last) then [last] else [])
  }

  /** The keys that survive the `unset`s, that is the original positions of the kept files. */
  function KeptKeys(files: seq<string>): seq<nat> {
    if files == [] then []
    else
      KeptKeys(files[..|files| - 1]) + (if Selected(files[|files| - 1]) then [|files| - 1] else [])
  }

  /** The loop of `filterFiles`: each entry failing a test is dropped, the others keep their order. */
  method FilterFiles(files: seq<string>) returns (kept: seq<string>)
    ensures kept == Select(files)
  {
    kept := [];
    for index := 0 to |files|
      invariant kept == Select(files[..index])
    {
      var file := files[index];
      var present := true;
      // the extension test
      if !HasAllowedExtension(file) {
        present := false;
      }
      // the excluded-path test
      if IsExcluded(file) {
        present := false;
      }
      assert files[..index + 1][..index] == files[..index];
      if present {
        kept := kept + [file];
      }
    }
    assert files[..|files|] == files;
  }

  /**
   * The result of `filterFiles` is an order-preserving subsequence of its input: the kept files sit
   * at strictly increasing original positions, and a position is kept iff its file is selected.
   */
  lemma {:induction false} SelectIsOrderedSubsequence(files: seq<string>)
    ensures |KeptKeys(files)| == |Select(files)|
    ensures forall k :: 0 <= k < |KeptKeys(files)| ==>
              KeptKeys(files)[k] < |files| && Select(files)[k] == files[KeptKeys(files)[k]]
    ensures forall k, l :: 0 <= k < l < |KeptKeys(files)| ==> KeptKeys(files)[k] < KeptKeys(files)[l]
    ensures forall i :: 0 <= i < |files| ==> (i in KeptKeys(files) <==> Selected(files[i]))
  {
    if files != [] {
      var init := files[..|files| - 1];
      SelectIsOrderedSubsequence(init);
      forall i | 0 <= i < |init| ensures files[i] == init[i] { }
    }
  }

  /** A file is among the survivors iff it was committed and passes both tests. */
  lemma SelectMembership(files: seq<string>, file: string)
    ensures file in Select(files) <==> file in files && Selected(file)
  {
    SelectIsOrderedSubsequence(files);
    if file in Select(files) {
      var k :| 0 <= k < |Select(files)| && Select(files)[k] == file;
      assert files[KeptKeys(files)[k]] == file;
    }
    if file in files && Selected(file) {
      var i :| 0 <= i < |files| && files[i] == file;
      var k :| 0 <= k < |KeptKeys(files)| && KeptKeys(files)[k] == i;
      assert Select(files)[k] == file;
    }
  }

  /**
   * What the extension pattern accepts: a path containing `.inc`, `.install`, `.js`, `.md`,
   * `.module`, `.php`, `.profile`, `.test`, `.theme` or `.txt` anywhere, or ending in `.yml`.
   */
  lemma ExtensionPatternMeaning(path: string)
    ensures HasAllowedExtension(path) <==>
              (exists i :: 0 <= i < |AllowedExtensions| - 1 && Contains(path, "." + AllowedExtensions[i]))
              || EndAnchored(path, ".yml")
  {
    var alts := ExtensionAlternatives(AllowedExtensions);
    assert alts[10] == Alternative(".yml", true);
    forall i | 0 <= i < |alts| - 1
      ensures alts[i] == Alternative("." + AllowedExtensions[i], false)
    {
    }
    if HasAllowedExtension(path) {
      var i :| 0 <= i < |alts| && AlternativeMatches(alts[i], path);
      if i < 10 {
        assert Contains(path, "." + AllowedExtensions[i]);
      }
    }
  }

  /** None of the excluded prefixes, taken alone, counts as excluded: `.+` needs one more character. */
  lemma BarePrefixNotExcluded(i: nat)
    requires i < |ExcludedPaths|
    ensures !IsExcluded(ExcludedPaths[i])
  {
    var p := ExcludedPaths[i];
    forall j | 0 <= j < |ExcludedPaths|
      ensures !MatchesExcludedPrefix(ExcludedPaths[j], p)
    {
      var q := ExcludedPaths[j];
      if |q| < |p| {
        // distinct prefixes differ at offset 0 or at offset 4
        assert i == 0 || i == 1 || i == 2 || i == 3 || i == 4 || i == 5;
        assert j == 0 || j == 1 || j == 2 || j == 3 || j == 4 || j == 5;
        assert p[0] != q[0] || p[4] != q[4];
        assert p[..|q|] != q;
      }
    }
  }

  /** A path below an excluded prefix is dropped even when its extension is allowed. */
  lemma ExcludedPathDropped(path: string, i: nat)
    requires i < |ExcludedPaths| && MatchesExcludedPrefix(ExcludedPaths[i], path)
    ensures !Selected(path) && path !in Select([path])
  {
  }

  /** A `.php` file outside the excluded prefixes is kept. */
  lemma PhpFileKept(path: string)
    requires EndsWith(path, ".php") && !IsExcluded(path)
    ensures Selected(path) && Select([path]) == [path]
  {
    assert IsPrefixAt(".php", path, |path| - 4);
    assert "." + AllowedExtensions[5] == ".php";
    ExtensionPatternMeaning(path);
  }

  /** Because `$` anchors only `yml`, `package.json` passes the extension test on its `.js`. */
  lemma UnanchoredExtensionQuirk()
    ensures HasAllowedExtension("package.json")
    ensures Selected("web/core/package.json") == false
  {
    assert IsPrefixAt(".js", "package.json", 7);
    assert "." + AllowedExtensions[2] == ".js";
    ExtensionPatternMeaning("package.json");
    assert MatchesExcludedPrefix(ExcludedPaths[0], "web/core/package.json");
  }
}
