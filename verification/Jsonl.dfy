/** The JSON-lines protocol of `verify --format=jsonl`: the stream that the
    command emits (`cli/verify.rs`) and what the MCP server makes of it
    (`subprocess.rs`). */
module Jsonl {
  import opened Text
  import opened Wrappers

  datatype Severity = Info | Warning | Error

  /** `rest` stands for the message and the optional fields. */
  datatype Diagnostic = Diagnostic(code: string, severity: Severity, rest: string)

  // ------------------------------------------------------------------ codes

  const VERIFY_OK := "VERIFY_OK"
  const VERIFY_FAIL := "VERIFY_FAIL"
  const VERIFY_ERROR := "VERIFY_ERROR"
  const VERIFY_SKIPPED := "VERIFY_SKIPPED"
  const STRICT_SIGNATURE_MISSING := "VERIFY_STRICT_SIGNATURE_MISSING"
  const MCP_NO_OUTPUT := "MCP_NO_OUTPUT"
  const MCP_MALFORMED_JSONL := "MCP_MALFORMED_JSONL"
  const OK_SUFFIX := "_OK"
  const FAIL_SUFFIX := "_FAIL"
  const ERROR_SUFFIX := "_ERROR"

  const EXIT_SUCCESS := 0
  const EXIT_ERROR := 1
  const EXIT_VERIFICATION_FAILURE := 2

  /** The suffixes reserved for terminal events. */
  predicate TerminalCode(code: string) {
    EndsWith(code, OK_SUFFIX) || EndsWith(code, FAIL_SUFFIX) || EndsWith(code, ERROR_SUFFIX)
  }

  lemma Codes()
    ensures EndsWith(VERIFY_OK, OK_SUFFIX) && EndsWith(VERIFY_FAIL, FAIL_SUFFIX) && EndsWith(VERIFY_ERROR, ERROR_SUFFIX)
    ensures !EndsWith(VERIFY_FAIL, OK_SUFFIX) && !EndsWith(VERIFY_ERROR, OK_SUFFIX)
    ensures !EndsWith(VERIFY_OK, FAIL_SUFFIX) && !EndsWith(VERIFY_ERROR, FAIL_SUFFIX)
    ensures !EndsWith(VERIFY_OK, ERROR_SUFFIX) && !EndsWith(VERIFY_FAIL, ERROR_SUFFIX)
    ensures !TerminalCode(VERIFY_SKIPPED) && !TerminalCode(STRICT_SIGNATURE_MISSING)
    ensures !TerminalCode(MCP_NO_OUTPUT) && !TerminalCode(MCP_MALFORMED_JSONL) && !TerminalCode("")
  {
    assert VERIFY_OK[|VERIFY_OK| - 1] == 'K' && VERIFY_FAIL[|VERIFY_FAIL| - 1] == 'L' && VERIFY_ERROR[|VERIFY_ERROR| - 1] == 'R';
    assert VERIFY_SKIPPED[|VERIFY_SKIPPED| - 1] == 'D' && STRICT_SIGNATURE_MISSING[|STRICT_SIGNATURE_MISSING| - 1] == 'G';
    assert MCP_NO_OUTPUT[|MCP_NO_OUTPUT| - 1] == 'T';
    assert MCP_MALFORMED_JSONL[|MCP_MALFORMED_JSONL| - 2] == 'N' && FAIL_SUFFIX[|FAIL_SUFFIX| - 2] == 'I';
    LastCharacter(VERIFY_OK);
    LastCharacter(VERIFY_FAIL);
    LastCharacter(VERIFY_ERROR);
    LastCharacter(VERIFY_SKIPPED);
    LastCharacter(STRICT_SIGNATURE_MISSING);
    LastCharacter(MCP_NO_OUTPUT);
    LastCharacter(MCP_MALFORMED_JSONL);
    assert VERIFY_OK[6..] == OK_SUFFIX;
    assert VERIFY_FAIL[6..] == FAIL_SUFFIX;
    assert VERIFY_ERROR[6..] == ERROR_SUFFIX;
  }

  /** A suffix decides the last two characters. */
  lemma LastCharacter(s: string)
    requires |s| >= 2
    ensures EndsWith(s, OK_SUFFIX) ==> s[|s| - 1] == 'K'
    ensures EndsWith(s, FAIL_SUFFIX) ==> s[|s| - 1] == 'L' && s[|s| - 2] == 'I'
    ensures EndsWith(s, ERROR_SUFFIX) ==> s[|s| - 1] == 'R'
  {
    var n := |s|;
    if EndsWith(s, OK_SUFFIX) { assert s[n - 1] == s[n - 3..][2] == OK_SUFFIX[2]; }
    if EndsWith(s, FAIL_SUFFIX) { assert s[n - 1] == s[n - 5..][4] == FAIL_SUFFIX[4] && s[n - 2] == s[n - 5..][3] == FAIL_SUFFIX[3]; }
    if EndsWith(s, ERROR_SUFFIX) { assert s[n - 1] == s[n - 6..][5] == ERROR_SUFFIX[5]; }
  }

  // --------------------------------------------------------------- producer

  /** A verification finding; a pre-release tool on the `dev` profile only warns. */
  datatype Finding = PrereleaseToolDetected(profile: string, diagnostic: Diagnostic) | OtherFinding(diagnostic: Diagnostic)

  const DEV := "dev"

  predicate Blocking(f: Finding) { !(f.PrereleaseToolDetected? && f.profile == DEV) }

  datatype Outcome =
    | Pass(incomplete: Option<Diagnostic>, llrCheckSkipped: Option<Diagnostic>)
    | Fail(findings: seq<Finding>)
    | Skipped(reason: string)
    | RuntimeFault(diagnostic: Diagnostic)

  /** What the command meets: whether the bundle and its signature file exist,
      the bundle-missing diagnostic, the key it was given (if any) or why it
      would not load, and what verification says. */
  datatype Situation = Situation(bundleExists: bool, notFound: Diagnostic, signatureExists: bool, strict: bool,
                                 key: Option<Result<(), Diagnostic>>, outcome: Outcome, terminalText: string)

  datatype Verdict = Verified | Refused | Broken

  function ExitOf(v: Verdict): int {
    match v case Verified => EXIT_SUCCESS case Refused => EXIT_VERIFICATION_FAILURE case Broken => EXIT_ERROR
  }

  function CodeOf(v: Verdict): string {
    match v case Verified => VERIFY_OK case Refused => VERIFY_FAIL case Broken => VERIFY_ERROR
  }

  predicate SignatureMissing(s: Situation) { s.strict && !s.signatureExists && s.key.None? }

  predicate KeyUnusable(s: Situation) { s.key.Some? && s.key.value.Failure? }

  /** The verdict, from the situation alone. */
  function VerdictOf(s: Situation): Verdict {
    if !s.bundleExists then Broken
    else if SignatureMissing(s) then Refused
    else if KeyUnusable(s) || s.outcome.RuntimeFault? then Broken
    else if s.outcome.Fail? && exists f :: f in s.outcome.findings && Blocking(f) then Refused
    else if s.outcome.Skipped? && s.strict then Refused
    else Verified
  }

  function Downgraded(f: Finding): Diagnostic {
    if Blocking(f) then f.diagnostic else f.diagnostic.(severity := Warning)
  }

  method EmitFindings(findings: seq<Finding>) returns (stream: seq<Diagnostic>, anyError: bool)
    ensures |stream| == |findings| && forall i :: 0 <= i < |findings| ==> stream[i] == Downgraded(findings[i])
    ensures anyError <==> exists f :: f in findings && Blocking(f)
  {
    stream, anyError := [], false;
    var i := 0;
    while i < |findings|
      invariant 0 <= i <= |findings| && |stream| == i
      invariant forall j :: 0 <= j < i ==> stream[j] == Downgraded(findings[j])
      invariant anyError <==> exists f :: f in findings[..i] && Blocking(f)
    {
      var f := findings[i];
      assert findings[..i + 1] == findings[..i] + [f];
      var diagnostic := f.diagnostic;
      if f.PrereleaseToolDetected? && f.profile == DEV {
        diagnostic := diagnostic.(severity := Warning);
      } else {
        anyError := true;
      }
      stream := stream + [diagnostic];
      i := i + 1;
    }
    assert findings[..i] == findings;
  }

  function Terminal(s: Situation, v: Verdict): Diagnostic {
    Diagnostic(CodeOf(v), if v == Verified then Info else Error, s.terminalText)
  }

  function Optional(d: Option<Diagnostic>): seq<Diagnostic> { if d.Some? then [d.value] else [] }

  /** Every finding, in order, before the terminal event. */
  ghost predicate Reports(s: Situation, findings: seq<Diagnostic>) {
    if !s.bundleExists then findings == [s.notFound]
    else if SignatureMissing(s) then |findings| == 1 && findings[0].code == STRICT_SIGNATURE_MISSING
    else if KeyUnusable(s) then findings == [s.key.value.error]
    else
      match s.outcome
      case Pass(incomplete, skipped) =>
        findings == (if incomplete.Some? then [incomplete.value] else []) + (if skipped.Some? then [skipped.value] else [])
      case Fail(fs) => |findings| == |fs| && forall i :: 0 <= i < |fs| ==> findings[i] == Downgraded(fs[i])
      case Skipped(_) => |findings| == 1 && findings[0].code == VERIFY_SKIPPED
      case RuntimeFault(d) => findings == [d]
  }

  /** The events of a verification outcome, terminal included. */
  method EmitOutcome(s: Situation) returns (stream: seq<Diagnostic>, exit: int)
    requires s.bundleExists && !SignatureMissing(s) && !KeyUnusable(s)
    ensures Produced(s, stream) && exit == ExitOf(VerdictOf(s))
  {
    hide VERIFY_OK, VERIFY_FAIL, VERIFY_ERROR, VERIFY_SKIPPED, STRICT_SIGNATURE_MISSING, DEV, Blocking, SignatureMissing, KeyUnusable;
    match s.outcome {
      case Pass(incomplete, llrCheckSkipped) =>
        stream := Optional(incomplete) + Optional(llrCheckSkipped);
        Ended(stream, Diagnostic(VERIFY_OK, Info, s.terminalText));
        stream := stream + [Diagnostic(VERIFY_OK, Info, s.terminalText)];
        exit := EXIT_SUCCESS;
      case Fail(findings) =>
        var anyError;
        stream, anyError := EmitFindings(findings);
        if anyError {
          Ended(stream, Diagnostic(VERIFY_FAIL, Error, s.terminalText));
          stream := stream + [Diagnostic(VERIFY_FAIL, Error, s.terminalText)];
          exit := EXIT_VERIFICATION_FAILURE;
        } else {
          Ended(stream, Diagnostic(VERIFY_OK, Info, s.terminalText));
          stream := stream + [Diagnostic(VERIFY_OK, Info, s.terminalText)];
          exit := EXIT_SUCCESS;
        }
      case Skipped(reason) =>
        stream := [Diagnostic(VERIFY_SKIPPED, Info, reason)];
        if s.strict {
          Ended(stream, Diagnostic(VERIFY_FAIL, Error, s.terminalText));
          stream := stream + [Diagnostic(VERIFY_FAIL, Error, s.terminalText)];
          exit := EXIT_VERIFICATION_FAILURE;
        } else {
          Ended(stream, Diagnostic(VERIFY_OK, Info, s.terminalText));
          stream := stream + [Diagnostic(VERIFY_OK, Info, s.terminalText)];
          exit := EXIT_SUCCESS;
        }
      case RuntimeFault(diagnostic) =>
        stream := [diagnostic];
        Ended(stream, Diagnostic(VERIFY_ERROR, Error, s.terminalText));
        stream := stream + [Diagnostic(VERIFY_ERROR, Error, s.terminalText)];
        exit := EXIT_ERROR;
    }
  }

  lemma Ended(findings: seq<Diagnostic>, terminal: Diagnostic)
    ensures var stream := findings + [terminal]; stream[..|stream| - 1] == findings
  {
  }

  method CmdVerifyJsonl(s: Situation) returns (stream: seq<Diagnostic>, exit: int)
    ensures stream != [] && stream[|stream| - 1] == Terminal(s, VerdictOf(s))
    ensures Reports(s, stream[..|stream| - 1])
    ensures exit == ExitOf(VerdictOf(s))
  {
    hide VERIFY_OK, VERIFY_FAIL, VERIFY_ERROR, VERIFY_SKIPPED, STRICT_SIGNATURE_MISSING, DEV, Blocking;
    if !s.bundleExists {
      return [s.notFound, Diagnostic(VERIFY_ERROR, Error, s.terminalText)], EXIT_ERROR;
    }
    if s.strict && !s.signatureExists && s.key.None? {
      return [Diagnostic(STRICT_SIGNATURE_MISSING, Error, ""), Diagnostic(VERIFY_FAIL, Error, s.terminalText)], EXIT_VERIFICATION_FAILURE;
    }
    if s.key.Some? && s.key.value.Failure? {
      return [s.key.value.error, Diagnostic(VERIFY_ERROR, Error, s.terminalText)], EXIT_ERROR;
    }
    stream, exit := EmitOutcome(s);
  }

  // ------------------------------------------------------- what each verdict means

  /** A finding that does not count against the bundle: a pre-release tool on the
      development profile. */
  predicate Tolerated(f: Finding) { f.PrereleaseToolDetected? && f.profile == "dev" }

  /** The bundle holds up: it passed, its findings are all tolerated, or the check was
      skipped and nobody insisted. */
  predicate HoldsUp(s: Situation) {
    match s.outcome
    case Pass(_, _) => true
    case Fail(findings) => forall f :: f in findings ==> Tolerated(f)
    case Skipped(_) => !s.strict
    case RuntimeFault(_) => false
  }

  /** Main result: exactly when the command exits with 0, 2 or 1, and the terminal event
      that says so. */
  lemma ExitExactly(s: Situation)
    ensures var exit, last := ExitOf(VerdictOf(s)), Terminal(s, VerdictOf(s));
            var unsigned, badKey := s.strict && !s.signatureExists && s.key.None?, s.key.Some? && s.key.value.Failure?;
            && (exit == 0 <==> s.bundleExists && !unsigned && !badKey && HoldsUp(s))
            && (exit == 2 <==> s.bundleExists && (unsigned || (!badKey && !s.outcome.RuntimeFault? && !HoldsUp(s))))
            && (exit == 1 <==> !s.bundleExists || (!unsigned && (badKey || s.outcome.RuntimeFault?)))
            && last == (if exit == 0 then Diagnostic("VERIFY_OK", Info, s.terminalText)
                        else if exit == 2 then Diagnostic("VERIFY_FAIL", Error, s.terminalText)
                        else Diagnostic("VERIFY_ERROR", Error, s.terminalText))
  {
    assert DEV == "dev" && VERIFY_OK == "VERIFY_OK" && VERIFY_FAIL == "VERIFY_FAIL" && VERIFY_ERROR == "VERIFY_ERROR";
    hide DEV, VERIFY_OK, VERIFY_FAIL, VERIFY_ERROR;
    if s.outcome.Fail? {
      assert HoldsUp(s) <==> !exists f :: f in s.outcome.findings && Blocking(f);
    }
  }

  /** A tolerated finding is reported as a warning, and every other one as it is. */
  lemma DowngradedExactly(f: Finding)
    ensures Tolerated(f) ==> Downgraded(f) == Diagnostic(f.diagnostic.code, Warning, f.diagnostic.rest)
    ensures !Tolerated(f) ==> Downgraded(f) == f.diagnostic
  {
  }

  lemma CodeTexts()
    ensures VERIFY_SKIPPED == "VERIFY_SKIPPED" && STRICT_SIGNATURE_MISSING == "VERIFY_STRICT_SIGNATURE_MISSING"
    ensures MCP_NO_OUTPUT == "MCP_NO_OUTPUT" && MCP_MALFORMED_JSONL == "MCP_MALFORMED_JSONL"
  {
  }

  /** No finding carries a code reserved for terminal events. */
  ghost predicate FindingsNotTerminal(s: Situation) {
    && !TerminalCode(s.notFound.code)
    && (KeyUnusable(s) ==> !TerminalCode(s.key.value.error.code))
    && match s.outcome
       case Pass(incomplete, skipped) => (incomplete.Some? ==> !TerminalCode(incomplete.value.code)) && (skipped.Some? ==> !TerminalCode(skipped.value.code))
       case Fail(fs) => forall f :: f in fs ==> !TerminalCode(f.diagnostic.code)
       case Skipped(_) => true
       case RuntimeFault(d) => !TerminalCode(d.code)
  }

  /** A run of the command: the stream ends in the one terminal event. */
  ghost predicate Produced(s: Situation, stream: seq<Diagnostic>) {
    stream != [] && stream[|stream| - 1] == Terminal(s, VerdictOf(s)) && Reports(s, stream[..|stream| - 1])
  }

  /** The last event, and only it, carries a terminal code. */
  ghost predicate OneTerminal(stream: seq<Diagnostic>) {
    && stream != [] && TerminalCode(stream[|stream| - 1].code)
    && forall i :: 0 <= i < |stream| - 1 ==> !TerminalCode(stream[i].code)
  }

  lemma ReportsNotTerminal(s: Situation, findings: seq<Diagnostic>)
    requires FindingsNotTerminal(s) && Reports(s, findings)
    ensures forall i :: 0 <= i < |findings| ==> !TerminalCode(findings[i].code)
  {
    hide TerminalCode, VERIFY_OK, VERIFY_FAIL, VERIFY_ERROR, VERIFY_SKIPPED, STRICT_SIGNATURE_MISSING, DEV, Blocking, MCP_NO_OUTPUT, MCP_MALFORMED_JSONL;
    Codes();
    if s.bundleExists && !SignatureMissing(s) && !KeyUnusable(s) && s.outcome.Fail? {
      forall i | 0 <= i < |findings| ensures !TerminalCode(findings[i].code) {
        assert s.outcome.findings[i] in s.outcome.findings;
      }
    }
  }

  /** Every run emits exactly one terminal event, as its last line, and the exit
      code is 0, 2 or 1 exactly when that event's code ends in `_OK`, `_FAIL` or
      `_ERROR`. */
  lemma TerminalMatchesExit(s: Situation, stream: seq<Diagnostic>)
    requires FindingsNotTerminal(s) && Produced(s, stream)
    ensures OneTerminal(stream)
    ensures var code, exit := stream[|stream| - 1].code, ExitOf(VerdictOf(s));
            && (exit == EXIT_SUCCESS <==> EndsWith(code, OK_SUFFIX))
            && (exit == EXIT_VERIFICATION_FAILURE <==> EndsWith(code, FAIL_SUFFIX))
            && (exit == EXIT_ERROR <==> EndsWith(code, ERROR_SUFFIX))
  {
    hide VERIFY_OK, VERIFY_FAIL, VERIFY_ERROR, VERIFY_SKIPPED, STRICT_SIGNATURE_MISSING, MCP_NO_OUTPUT,
      MCP_MALFORMED_JSONL, EndsWith, Reports, VerdictOf, FindingsNotTerminal;
    Codes();
    ReportsNotTerminal(s, stream[..|stream| - 1]);
    forall i | 0 <= i < |stream| - 1 ensures !TerminalCode(stream[i].code) {
      assert stream[..|stream| - 1][i] == stream[i];
    }
  }
}
