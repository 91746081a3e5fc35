/**
 * The pre-commit gate (git-hooks/pre-commit.php): each check filters the committed files and
 * processes every survivor, recording failure in its `succeed` field; the application runs the PHP
 * check and the blacklisted-strings check and throws when either failed.
 *
 * What git, the tools and the file system would answer is given as a `Workspace`.
 */
module PreCommit {
  import FileSelection
  import PhpCodeCheck
  import BlacklistedStrings

  /** The two concrete checks: `DrupalPhpCodeCheck` and `DrupalBlacklistedStringsCheck`. */
  datatype CheckKind = PhpCheck | BlacklistCheck

  /**
   * The outside world of one hook run: the committed paths (`fetchCommittedFiles`), the exit status
   * each tool returns on a path, and each path's contents (`file_get_contents`).
   */
  datatype Workspace = Workspace(
    committed: seq<string>,
    statuses: string -> PhpCodeCheck.ToolStatuses,
    contents: string -> string)

  /** The verdict of a check's `processFile` on one path. */
  predicate FilePasses(kind: CheckKind, rule: BlacklistedStrings.BoundaryRule, ws: Workspace, file: string) {
    match kind
    case PhpCheck => PhpCodeCheck.Passes(ws.statuses(file))
    case BlacklistCheck => BlacklistedStrings.NoOccurrence(ws.contents(file), BlacklistedStrings.Checks, rule)
  }

  /** The flag `processFiles` leaves behind when it starts from true: the conjunction over `files`, in order. */
  function AllPass(kind: CheckKind, rule: BlacklistedStrings.BoundaryRule, ws: Workspace, files: seq<string>): (b: bool)
    ensures b <==> forall i :: 0 <= i < |files| ==> FilePasses(kind, rule, ws, files[i])
  {
    if files == [] then true
    else AllPass(kind, rule, ws, files[..|files| - 1]) && FilePasses(kind, rule, ws, files[|files| - 1])
  }

  /** The two markers are non-empty, so the blacklist pattern is well formed. */
  lemma ChecksNonEmpty()
    ensures BlacklistedStrings.NonEmptyFragments(BlacklistedStrings.Checks)
  {
    assert BlacklistedStrings.Checks[0] == "<<<<<<<" && BlacklistedStrings.Checks[1] == ">>>>>>>";
  }

  /**
   * `DrupalCodeCheck` with one of its two subclasses. `boundary` is the start condition the
   * blacklist pattern puts on a marker (the source's is `\b`); the PHP check ignores it.
   * `processed` records the paths `processFiles` has gone through.
   */
  class CodeCheck {
    const kind: CheckKind
    const boundary: BlacklistedStrings.BoundaryRule
    var succeed: bool
    ghost var processed: seq<string>

    /** A fresh check; `succeed` starts unset, which PHP reads as false. */
    constructor (kind: CheckKind, boundary: BlacklistedStrings.BoundaryRule)
      ensures this.kind == kind && this.boundary == boundary
      ensures !succeed && processed == []
    {
      this.kind := kind;
      this.boundary := boundary;
      succeed := false;
      processed := [];
    }

    /** `setSucceed`. */
    method SetSucceed(value: bool)
      modifies this`succeed
      ensures succeed == value
    {
      succeed := value;
    }

    /** `getSucceed`. */
    function GetSucceed(): bool
      reads this
    {
      succeed
    }

    /** The subclass's `processFile`: whether `file` passes this check. */
    method ProcessFile(ws: Workspace, file: string) returns (ok: bool)
      ensures ok <==> FilePasses(kind, boundary, ws, file)
    {
      match kind
      case PhpCheck =>
        var invoked, diagnoses;
        ok, invoked, diagnoses := PhpCodeCheck.ProcessFile(ws.statuses(file));
      case BlacklistCheck =>
        ChecksNonEmpty();
        var reported;
        ok, reported := BlacklistedStrings.ProcessFile(ws.contents(file), BlacklistedStrings.Checks, boundary);
    }

    /**
     * `processFiles`: every filtered path is processed, in order, and a failure on one does not stop
     * the others; the flag is cleared iff some path fails.
     */
    method ProcessFiles(ws: Workspace)
      modifies this`succeed, this`processed
      ensures processed == FileSelection.Select(ws.committed)
      ensures succeed <==> old(succeed) && AllPass(kind, boundary, ws, FileSelection.Select(ws.committed))
    {
      var files := FileSelection.FilterFiles(ws.committed);
      processed := [];
      for i := 0 to |files|
        invariant processed == files[..i]
        invariant succeed <==> old(succeed) && AllPass(kind, boundary, ws, files[..i])
      {
        var ok := ProcessFile(ws, files[i]);
        if !ok {
          SetSucceed(false);
        }
        processed := processed + [files[i]];
        assert files[..i + 1][..i] == files[..i];
      }
      assert files[..|files|] == files;
    }

    /** `doRun`: reset the flag, then process the files. */
    method DoRun(ws: Workspace)
      modifies this`succeed, this`processed
      ensures processed == FileSelection.Select(ws.committed)
      ensures succeed <==> AllPass(kind, boundary, ws, FileSelection.Select(ws.committed))
    {
      SetSucceed(true);
      ProcessFiles(ws);
    }
  }

  /** `DrupalCodeCheckApplication`. */
  class Application {
    var succeed: bool

    constructor ()
      ensures !succeed
    {
      succeed := false;
    }

    /**
     * `doRun`: both checks always run, the PHP check first; the application fails, and throws,
     * iff either check failed. `ran` lists the checks run; `thrown` stands for the exception.
     */
    method DoRun(ws: Workspace, boundary: BlacklistedStrings.BoundaryRule) returns (thrown: bool, ran: seq<CheckKind>)
      modifies this
      ensures ran == [PhpCheck, BlacklistCheck]
      ensures succeed <==> AllPass(PhpCheck, boundary, ws, FileSelection.Select(ws.committed))
                           && AllPass(BlacklistCheck, boundary, ws, FileSelection.Select(ws.committed))
      ensures thrown <==> !succeed
    {
      succeed := true;

      var phpCodeCheck := new CodeCheck(PhpCheck, boundary);
      phpCodeCheck.DoRun(ws);
      ran := [PhpCheck];
      if !phpCodeCheck.GetSucceed() {
        succeed := false;
      }

      var blacklistedStringsCheck := new CodeCheck(BlacklistCheck, boundary);
      blacklistedStringsCheck.DoRun(ws);
      ran := ran + [BlacklistCheck];
      if !blacklistedStringsCheck.GetSucceed() {
        succeed := false;
      }

      thrown := !succeed;
    }
  }

  /**
   * The gate rejects the commit iff some selected path fails a tool or contains a marker where the
   * boundary rule allows it; unselected paths play no part.
   */
  lemma RejectionMeaning(ws: Workspace, boundary: BlacklistedStrings.BoundaryRule)
    ensures !(AllPass(PhpCheck, boundary, ws, FileSelection.Select(ws.committed))
              && AllPass(BlacklistCheck, boundary, ws, FileSelection.Select(ws.committed)))
            <==>
            exists file :: file in ws.committed && FileSelection.Selected(file)
                           && (!PhpCodeCheck.Passes(ws.statuses(file))
                               || !BlacklistedStrings.NoOccurrence(ws.contents(file), BlacklistedStrings.Checks, boundary))
  {
    var files := FileSelection.Select(ws.committed);
    forall file
      ensures file in files <==> file in ws.committed && FileSelection.Selected(file)
    {
      FileSelection.SelectMembership(ws.committed, file);
    }
  }

  /**
   * End to end: a clean `a.php` whose first line is a merge-conflict marker passes the gate as
   * written, and is rejected once a marker may start at the beginning of a line.
   */
  lemma ConflictMarkerCommitted(statuses: string -> PhpCodeCheck.ToolStatuses, contents: string -> string)
    requires PhpCodeCheck.Passes(statuses("a.php")) && contents("a.php") == "<<<<<<<\n"
    ensures AllPass(PhpCheck, BlacklistedStrings.WordBoundary, Workspace(["a.php"], statuses, contents),
                    FileSelection.Select(["a.php"]))
    ensures AllPass(BlacklistCheck, BlacklistedStrings.WordBoundary, Workspace(["a.php"], statuses, contents),
                    FileSelection.Select(["a.php"]))
    ensures !AllPass(BlacklistCheck, BlacklistedStrings.LineStart, Workspace(["a.php"], statuses, contents),
                     FileSelection.Select(["a.php"]))
  {
    forall i | 0 <= i < |FileSelection.ExcludedPaths|
      ensures !FileSelection.MatchesExcludedPrefix(FileSelection.ExcludedPaths[i], "a.php")
    {
      assert |FileSelection.ExcludedPaths[i]| > |"a.php"|;
    }
    FileSelection.PhpFileKept("a.php");
    BlacklistedStrings.ConflictMarkerLinePasses();
    BlacklistedStrings.ConflictMarkerLineFailsCorrected();
  }
}
