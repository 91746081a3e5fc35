/**
 * The verdict of the PHP check on one file (`DrupalPhpCodeCheck` in git-hooks/pre-commit.php):
 * the linter, then the beautifier, then the sniffer, each reduced to the exit status it returns.
 */
module PhpCodeCheck {

  const NoSyntaxError: int := 0
  const SyntaxError: int := 255
  const PhpcsPassed: int := 0
  const PhpcsFailed: int := 1
  const PhpcbfPassed: int := 0
  const PhpcbfFailed: int := 1

  /** The external tools the check runs, by role: `php -l`, phpcbf and phpcs. */
  datatype Tool = Linter | Beautifier | Sniffer

  /** The exit status each tool would return on one file. */
  datatype ToolStatuses = ToolStatuses(lint: int, fixer: int, sniffer: int)

  /**
   * Which message a tool's status leads to: its own success code, its own failure code
   * (a syntax error, fixes applied, coding-standard problems), or anything else ("Invalid operation.").
   */
  datatype Diagnosis = Clean | Problems | InvalidOperation

  /** Symfony Process: a run is successful iff its exit code is 0. */
  predicate IsSuccessful(status: int) {
    status == 0
  }

  /** The three-way branch every tool's status goes through. */
  function Diagnose(status: int, passed: int, failed: int): (d: Diagnosis)
    requires passed != failed
    ensures d == Clean <==> status == passed
    ensures d == Problems <==> status == failed
    ensures d == InvalidOperation <==> status != passed && status != failed
  {
    if status == passed then Clean else if status == failed then Problems else InvalidOperation
  }

  /** All three tools succeed on the file. */
  predicate Passes(st: ToolStatuses) {
    st.lint == NoSyntaxError && st.fixer == PhpcbfPassed && st.sniffer == PhpcsPassed
  }

  /** `codeFixer`: the beautifier's verdict from its exit status. */
  method CodeFixer(status: int) returns (succeed: bool, diagnosis: Diagnosis)
    ensures succeed <==> status == PhpcbfPassed
    ensures diagnosis == Diagnose(status, PhpcbfPassed, PhpcbfFailed)
    ensures succeed <==> diagnosis == Clean
  {
    succeed := true;
    if status == PhpcbfPassed {
      diagnosis := Clean;
    } else {
      if status == PhpcbfFailed {
        diagnosis := Problems;
      } else {
        diagnosis := InvalidOperation;
      }
      succeed := false;
    }
    if !IsSuccessful(status) {
      succeed := false;
    }
  }

  /** `codeSniffer`: the sniffer's verdict from its exit status. */
  method CodeSniffer(status: int) returns (succeed: bool, diagnosis: Diagnosis)
    ensures succeed <==> status == PhpcsPassed
    ensures diagnosis == Diagnose(status, PhpcsPassed, PhpcsFailed)
    ensures succeed <==> diagnosis == Clean
  {
    succeed := true;
    if status == PhpcsPassed {
      diagnosis := Clean;
    } else {
      if status == PhpcsFailed {
        diagnosis := Problems;
      } else {
        diagnosis := InvalidOperation;
      }
      succeed := false;
    }
    if !IsSuccessful(status) {
      succeed := false;
    }
  }

  /**
   * `processFile`: lint first; only a clean lint runs the beautifier, and only a successful
   * beautifier runs the sniffer. `invoked` lists the tools run, `diagnoses` what each reported.
   */
  method ProcessFile(st: ToolStatuses) returns (succeed: bool, invoked: seq<Tool>, diagnoses: seq<Diagnosis>)
    ensures succeed <==> Passes(st)
    ensures invoked <= [Linter, Beautifier, Sniffer] && |invoked| >= 1
    ensures Beautifier in invoked <==> st.lint == NoSyntaxError
    ensures Sniffer in invoked <==> st.lint == NoSyntaxError && st.fixer == PhpcbfPassed
    ensures |diagnoses| == |invoked|
    ensures diagnoses[0] == Diagnose(st.lint, NoSyntaxError, SyntaxError)
    ensures |invoked| > 1 ==> diagnoses[1] == Diagnose(st.fixer, PhpcbfPassed, PhpcbfFailed)
    ensures |invoked| > 2 ==> diagnoses[2] == Diagnose(st.sniffer, PhpcsPassed, PhpcsFailed)
  {
    succeed := true;
    invoked := [Linter];
    diagnoses := [Diagnose(st.lint, NoSyntaxError, SyntaxError)];
    if st.lint == NoSyntaxError {
      invoked := invoked + [Beautifier];
      var fixed, fixerDiagnosis := CodeFixer(st.fixer);
      diagnoses := diagnoses + [fixerDiagnosis];
      if fixed {
        invoked := invoked + [Sniffer];
        var sniffed, snifferDiagnosis := CodeSniffer(st.sniffer);
        diagnoses := diagnoses + [snifferDiagnosis];
        if !sniffed {
          succeed := false;
        }
      } else {
        succeed := false;
      }
    } else {
      succeed := false;
    }
  }
}
