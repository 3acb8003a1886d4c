/** The DO-178C compliance report (`compliance/`): the objectives table, the
    verdict of each objective and the counters of the summary. */
module Compliance {
  import opened Wrappers

  datatype Dal = A | B | C | D

  datatype AssuranceLevel = DalA | DalB | DalC | DalD | Qm | Unclassified

  datatype Applicability = NotApplicable | Required | RequiredWithIndependence

  datatype Table = TableA3 | TableA4 | TableA5 | TableA6 | TableA7

  /** Objective `A3-6` is `(TableA3, 6)`; applicability by level, A to D. */
  datatype Objective = Objective(table: Table, number: nat, applicability: (Applicability, Applicability, Applicability, Applicability))

  datatype StatusKind = Met | NotMet | Partial | ManualReviewRequired | NotApplicableStatus

  datatype Evidence = Evidence(hasTraceData: bool, traceValidationPassed: bool, hasTestResults: bool, testsPassed: Option<bool>,
                               hasPerTestOutcomes: bool, statementPercent: Option<real>, branchPercent: Option<real>,
                               disposition: Option<string>)

  datatype Dimension = Statement | Branch

  function EffectivePolicyDal(level: AssuranceLevel): Dal {
    match level
    case DalA => A
    case DalB => B
    case DalC => C
    case DalD => D
    case Qm => D
    case Unclassified => D
  }

  function ApplicabilityFor(o: Objective, dal: Dal): Applicability {
    match dal
    case A => o.applicability.0
    case B => o.applicability.1
    case C => o.applicability.2
    case D => o.applicability.3
  }

  // ------------------------------------------------------------ the table

  const ALL_LEVELS := (RequiredWithIndependence, RequiredWithIndependence, Required, Required)
  const NOT_AT_D := (RequiredWithIndependence, RequiredWithIndependence, Required, NotApplicable)
  const AT_A_AND_B := (RequiredWithIndependence, RequiredWithIndependence, NotApplicable, NotApplicable)
  const AT_A_ONLY := (RequiredWithIndependence, NotApplicable, NotApplicable, NotApplicable)

  const TABLE_A3 := [
    Objective(TableA3, 1, ALL_LEVELS), Objective(TableA3, 2, ALL_LEVELS), Objective(TableA3, 3, ALL_LEVELS), Objective(TableA3, 4, ALL_LEVELS),
    Objective(TableA3, 5, ALL_LEVELS), Objective(TableA3, 6, ALL_LEVELS), Objective(TableA3, 7, NOT_AT_D)]

  const TABLE_A4 := [
    Objective(TableA4, 1, ALL_LEVELS), Objective(TableA4, 2, ALL_LEVELS), Objective(TableA4, 3, ALL_LEVELS), Objective(TableA4, 4, ALL_LEVELS),
    Objective(TableA4, 5, ALL_LEVELS), Objective(TableA4, 6, ALL_LEVELS), Objective(TableA4, 7, NOT_AT_D), Objective(TableA4, 8, NOT_AT_D)]

  const TABLE_A5 := [
    Objective(TableA5, 1, NOT_AT_D), Objective(TableA5, 2, NOT_AT_D), Objective(TableA5, 3, NOT_AT_D), Objective(TableA5, 4, NOT_AT_D),
    Objective(TableA5, 5, NOT_AT_D)]

  const TABLE_A6 := [
    Objective(TableA6, 1, ALL_LEVELS), Objective(TableA6, 2, ALL_LEVELS), Objective(TableA6, 3, NOT_AT_D), Objective(TableA6, 4, ALL_LEVELS),
    Objective(TableA6, 5, ALL_LEVELS)]

  const TABLE_A7 := [
    Objective(TableA7, 1, ALL_LEVELS), Objective(TableA7, 2, ALL_LEVELS), Objective(TableA7, 3, NOT_AT_D), Objective(TableA7, 4, AT_A_AND_B),
    Objective(TableA7, 5, ALL_LEVELS), Objective(TableA7, 6, ALL_LEVELS), Objective(TableA7, 7, NOT_AT_D), Objective(TableA7, 8, NOT_AT_D),
    Objective(TableA7, 9, AT_A_AND_B), Objective(TableA7, 10, AT_A_ONLY)]

  const OBJECTIVES: seq<Objective> := TABLE_A3 + TABLE_A4 + TABLE_A5 + TABLE_A6 + TABLE_A7

  // ----------------------------------------------------------- the verdicts

  function StatementGate(dal: Dal): Option<nat> {
    match dal case A => Some(95) case B => Some(95) case C => Some(90) case D => None
  }

  function BranchGate(dal: Dal): Option<nat> {
    match dal case A => Some(90) case B => Some(85) case C => None case D => None
  }

  function CoverageVerdict(observed: Option<real>, gate: Option<nat>, dimension: Dimension, disposition: Option<string>): StatusKind {
    match (observed, gate)
    case (None, _) => NotMet
    case (Some(percent), Some(min)) =>
      if percent < min as real then Partial
      else if dimension == Statement && disposition.Some? then Met
      else ManualReviewRequired
    case (Some(_), None) => ManualReviewRequired
  }

  function TraceStatus(e: Evidence): StatusKind {
    if e.hasTraceData && e.traceValidationPassed then Met
    else if e.hasTraceData then Partial
    else NotMet
  }

  function TestedMapping(e: Evidence): StatusKind {
    if e.hasTraceData && e.hasTestResults && e.traceValidationPassed then Partial else NotMet
  }

  function TestingStatus(o: Objective, dal: Dal, e: Evidence): StatusKind {
    match o.number
    case 1 => if e.testsPassed == Some(true) && e.hasTestResults then Partial else NotMet
    case 2 => if e.testsPassed == Some(true) && e.hasTestResults then Partial else NotMet
    case 3 => LlrTesting(e)
    case 4 => LlrTesting(e)
    case 5 => if e.testsPassed == Some(true) && e.hasTestResults then Met else NotMet
    case 6 => TestedMapping(e)
    case 7 => TestedMapping(e)
    case 8 => CoverageVerdict(e.statementPercent, StatementGate(dal), Statement, e.disposition)
    case 9 => CoverageVerdict(e.branchPercent, BranchGate(dal), Branch, e.disposition)
    case _ => NotMet
  }

  function LlrTesting(e: Evidence): StatusKind {
    match (e.testsPassed, e.hasPerTestOutcomes)
    case (Some(true), true) => if e.hasTestResults then Met else NotMet
    case (Some(true), false) => if e.hasTestResults then Partial else NotMet
    case (_, _) => NotMet
  }

  function DetermineObjectiveStatus(o: Objective, dal: Dal, e: Evidence): (r: StatusKind)
    ensures r != NotApplicableStatus
  {
    match o.table
    case TableA3 => if o.number == 6 then TraceStatus(e) else ManualReviewRequired
    case TableA4 => if o.number == 6 then TraceStatus(e) else ManualReviewRequired
    case TableA5 => ManualReviewRequired
    case TableA6 =>
      if o.number != 5 then ManualReviewRequired
      else if e.hasTraceData && e.traceValidationPassed then Partial
      else NotMet
    case TableA7 => TestingStatus(o, dal, e)
  }

  // -------------------------------------------------------------- the report

  datatype Row = Row(objective: Objective, detail: Applicability, status: StatusKind)

  datatype Summary = Summary(total: nat, applicable: nat, met: nat, notMet: nat, partial: nat, manualReview: nat)

  datatype Report = Report(level: AssuranceLevel, rows: seq<Row>, summary: Summary)

  function RowOf(o: Objective, dal: Dal, e: Evidence): Row {
    var detail := ApplicabilityFor(o, dal);
    Row(o, detail, if detail == NotApplicable then NotApplicableStatus else DetermineObjectiveStatus(o, dal, e))
  }

  function CountStatus(rows: seq<Row>, status: StatusKind): nat {
    if rows == [] then 0 else CountStatus(rows[..|rows| - 1], status) + if rows[|rows| - 1].status == status then 1 else 0
  }

  function CountApplicable(rows: seq<Row>): nat {
    if rows == [] then 0 else CountApplicable(rows[..|rows| - 1]) + if rows[|rows| - 1].detail != NotApplicable then 1 else 0
  }

  function Rows(objectives: seq<Objective>, dal: Dal, e: Evidence): (r: seq<Row>)
    ensures |r| == |objectives| && forall i :: 0 <= i < |objectives| ==> r[i] == RowOf(objectives[i], dal, e)
  {
    if objectives == [] then [] else Rows(objectives[..|objectives| - 1], dal, e) + [RowOf(objectives[|objectives| - 1], dal, e)]
  }

  lemma CountedNone()
    ensures CountApplicable([]) == 0 && forall status :: CountStatus([], status) == 0
  {
  }

  lemma CountedOneMore(rows: seq<Row>, r: Row)
    ensures CountApplicable(rows + [r]) == CountApplicable(rows) + (if r.detail != NotApplicable then 1 else 0)
    ensures forall status :: CountStatus(rows + [r], status) == CountStatus(rows, status) + if r.status == status then 1 else 0
  {
    assert (rows + [r])[..|rows|] == rows;
  }

  method GenerateComplianceReport(level: AssuranceLevel, e: Evidence) returns (report: Report)
    ensures report.level == level && report.rows == Rows(OBJECTIVES, EffectivePolicyDal(level), e)
    ensures report.summary.total == 35 && report.summary.applicable == CountApplicable(report.rows)
    ensures report.summary.met == CountStatus(report.rows, Met) && report.summary.notMet == CountStatus(report.rows, NotMet)
    ensures report.summary.partial == CountStatus(report.rows, Partial)
    ensures report.summary.manualReview == CountStatus(report.rows, ManualReviewRequired)
    ensures report.summary.applicable == report.summary.met + report.summary.notMet + report.summary.partial + report.summary.manualReview
  {
    hide OBJECTIVES, DetermineObjectiveStatus, Rows, ApplicabilityFor, CountStatus, CountApplicable;
    TableSize();
    CountedNone();
    var dal := EffectivePolicyDal(level);
    var rows: seq<Row> := [];
    var met, notMet, partial, manualReview, applicable := 0, 0, 0, 0, 0;
    var i := 0;
    while i < |OBJECTIVES|
      invariant 0 <= i <= |OBJECTIVES| && |rows| == i
      invariant forall j :: 0 <= j < i ==> rows[j] == RowOf(OBJECTIVES[j], dal, e)
      invariant applicable == CountApplicable(rows) && applicable == met + notMet + partial + manualReview
      invariant met == CountStatus(rows, Met) && notMet == CountStatus(rows, NotMet)
      invariant partial == CountStatus(rows, Partial) && manualReview == CountStatus(rows, ManualReviewRequired)
    {
      var o := OBJECTIVES[i];
      var detail := ApplicabilityFor(o, dal);
      var status := NotApplicableStatus;
      if detail != NotApplicable {
        applicable := applicable + 1;
        status := DetermineObjectiveStatus(o, dal, e);
      }
      match status {
        case Met => met := met + 1;
        case NotMet => notMet := notMet + 1;
        case Partial => partial := partial + 1;
        case ManualReviewRequired => manualReview := manualReview + 1;
        case NotApplicableStatus =>
      }
      CountedOneMore(rows, Row(o, detail, status));
      rows := rows + [Row(o, detail, status)];
      i := i + 1;
    }
    report := Report(level, rows, Summary(|OBJECTIVES|, applicable, met, notMet, partial, manualReview));
  }

  // ------------------------------------------------------------ monotonicity

  /** Strength of a verdict. */
  function Strength(s: StatusKind): nat {
    match s case NotApplicableStatus => 0 case NotMet => 1 case Partial => 2 case ManualReviewRequired => 3 case Met => 4
  }

  predicate AtLeast(a: Option<real>, b: Option<real>) { a.None? || (b.Some? && a.value <= b.value) }

  /** `f` is at least as strong as `e` in every respect; failing tests are no
      stronger than absent ones. */
  predicate Stronger(e: Evidence, f: Evidence) {
    && (e.hasTraceData ==> f.hasTraceData)
    && (e.traceValidationPassed ==> f.traceValidationPassed)
    && (e.hasTestResults ==> f.hasTestResults)
    && (e.testsPassed == Some(true) ==> f.testsPassed == Some(true))
    && (e.hasPerTestOutcomes ==> f.hasPerTestOutcomes)
    && AtLeast(e.statementPercent, f.statementPercent)
    && AtLeast(e.branchPercent, f.branchPercent)
    && (e.disposition.Some? ==> f.disposition.Some?)
  }

  lemma CoverageIsMonotone(a: Option<real>, b: Option<real>, gate: Option<nat>, dimension: Dimension, x: Option<string>, y: Option<string>)
    requires AtLeast(a, b) && (x.Some? ==> y.Some?)
    ensures Strength(CoverageVerdict(a, gate, dimension, x)) <= Strength(CoverageVerdict(b, gate, dimension, y))
  {
  }

  lemma LlrTestingIsMonotone(e: Evidence, f: Evidence)
    requires Stronger(e, f)
    ensures Strength(LlrTesting(e)) <= Strength(LlrTesting(f))
  {
    hide AtLeast;
  }

  lemma TestingIsMonotone(o: Objective, dal: Dal, e: Evidence, f: Evidence)
    requires Stronger(e, f)
    ensures Strength(TestingStatus(o, dal, e)) <= Strength(TestingStatus(o, dal, f))
  {
    hide CoverageVerdict, AtLeast, LlrTesting, StatementGate, BranchGate;
    CoverageIsMonotone(e.statementPercent, f.statementPercent, StatementGate(dal), Statement, e.disposition, f.disposition);
    CoverageIsMonotone(e.branchPercent, f.branchPercent, BranchGate(dal), Branch, e.disposition, f.disposition);
    LlrTestingIsMonotone(e, f);
  }

  /** Stronger evidence never lowers the verdict of any objective. */
  lemma StatusIsMonotone(o: Objective, dal: Dal, e: Evidence, f: Evidence)
    requires Stronger(e, f)
    ensures Strength(DetermineObjectiveStatus(o, dal, e)) <= Strength(DetermineObjectiveStatus(o, dal, f))
  {
    hide TestingStatus, AtLeast;
    TestingIsMonotone(o, dal, e, f);
  }

  /** Over any table: with stronger evidence the met count never falls and the
      not-met count never rises, while the applicable count stays. */
  lemma CountsAreMonotone(objectives: seq<Objective>, dal: Dal, e: Evidence, f: Evidence)
    requires Stronger(e, f)
    ensures var r, q := Rows(objectives, dal, e), Rows(objectives, dal, f);
            CountStatus(r, Met) <= CountStatus(q, Met) && CountStatus(q, NotMet) <= CountStatus(r, NotMet) && CountApplicable(r) == CountApplicable(q)
  {
    hide DetermineObjectiveStatus, Stronger, Rows, ApplicabilityFor, Strength, CountStatus, CountApplicable;
    var r, q := Rows(objectives, dal, e), Rows(objectives, dal, f);
    forall i | 0 <= i < |objectives| ensures Rises(r[i], q[i]) {
      RowIsMonotone(objectives[i], dal, e, f);
    }
    RisingCounts(r, q);
  }

  /** The same applicability, and a verdict at least as strong. */
  predicate Rises(r: Row, q: Row) {
    r.detail == q.detail && Strength(r.status) <= Strength(q.status) && (r.status == NotApplicableStatus <==> q.status == NotApplicableStatus)
  }

  lemma RowIsMonotone(o: Objective, dal: Dal, e: Evidence, f: Evidence)
    requires Stronger(e, f)
    ensures Rises(RowOf(o, dal, e), RowOf(o, dal, f))
  {
    hide DetermineObjectiveStatus, Stronger, ApplicabilityFor, Strength;
    StatusIsMonotone(o, dal, e, f);
  }

  lemma {:induction false} RisingCounts(r: seq<Row>, q: seq<Row>)
    requires |r| == |q| && forall i :: 0 <= i < |r| ==> Rises(r[i], q[i])
    ensures CountStatus(r, Met) <= CountStatus(q, Met) && CountStatus(q, NotMet) <= CountStatus(r, NotMet)
    ensures CountApplicable(r) == CountApplicable(q)
    decreases |r|
  {
    if r != [] {
      var n := |r| - 1;
      RisingCounts(r[..n], q[..n]);
      assert Rises(r[n], q[n]);
    }
  }

  // ----------------------------------------------------- across the levels

  function Order(dal: Dal): nat { match dal case A => 0 case B => 1 case C => 2 case D => 3 }

  /** An objective that applies at a level applies at every stricter one. */
  ghost predicate Nested(o: Objective) {
    forall d, s :: Order(s) <= Order(d) && ApplicabilityFor(o, d) != NotApplicable ==> ApplicabilityFor(o, s) != NotApplicable
  }

  lemma TableIsNested()
    ensures forall o :: o in OBJECTIVES ==> Nested(o)
  {
    assert Nested(Objective(TableA3, 1, ALL_LEVELS));
    forall o | o in OBJECTIVES ensures Nested(o) {
      assert o.applicability == ALL_LEVELS || o.applicability == NOT_AT_D || o.applicability == AT_A_AND_B || o.applicability == AT_A_ONLY;
    }
  }

  /** There are thirty-five objectives. */
  lemma TableSize()
    ensures |OBJECTIVES| == 35
  {
    assert |TABLE_A3| == 7 && |TABLE_A4| == 8 && |TABLE_A5| == 5 && |TABLE_A6| == 5 && |TABLE_A7| == 10;
  }

  /** Every objective applies with independence at level A, and only MC/DC
      coverage is dropped at level B. */
  lemma StrictLevels(o: Objective)
    requires o in OBJECTIVES
    ensures ApplicabilityFor(o, A) == RequiredWithIndependence
    ensures ApplicabilityFor(o, B) == if Id(o) == (TableA7, 10) then NotApplicable else RequiredWithIndependence
  {
    assert o in TABLE_A3 || o in TABLE_A4 || o in TABLE_A5 || o in TABLE_A6 || o in TABLE_A7;
  }

  /** At level C three objectives drop out, and at level D also the ones of table A-5 and
      seven more; what stays is required without independence. */
  lemma LaxLevels(o: Objective)
    requires o in OBJECTIVES
    ensures ApplicabilityFor(o, C) == if Id(o) in {(TableA7, 4), (TableA7, 9), (TableA7, 10)} then NotApplicable else Required
    ensures ApplicabilityFor(o, D) ==
      if o.table == TableA5 || Id(o) in {(TableA3, 7), (TableA4, 7), (TableA4, 8), (TableA6, 3), (TableA7, 3), (TableA7, 4), (TableA7, 7),
                                         (TableA7, 8), (TableA7, 9), (TableA7, 10)}
      then NotApplicable else Required
  {
    assert o in TABLE_A3 || o in TABLE_A4 || o in TABLE_A5 || o in TABLE_A6 || o in TABLE_A7;
  }

  /** The objectives are numbered through in each table, none twice. */
  lemma Numbering(i: nat)
    requires i < 35
    ensures |OBJECTIVES| == 35
    ensures Id(OBJECTIVES[i]) ==
      if i < 7 then (TableA3, i + 1) else if i < 15 then (TableA4, i - 6) else if i < 20 then (TableA5, i - 14)
      else if i < 25 then (TableA6, i - 19) else (TableA7, i - 24)
  {
    TableSize();
  }

  /** Quality-managed and unclassified software is judged as level D. */
  lemma JudgedAs(level: AssuranceLevel)
    ensures EffectivePolicyDal(level) == A <==> level == DalA
    ensures EffectivePolicyDal(level) == B <==> level == DalB
    ensures EffectivePolicyDal(level) == C <==> level == DalC
    ensures EffectivePolicyDal(level) == D <==> level == DalD || level == Qm || level == Unclassified
  {
  }

  /** The coverage that falls short: below 95 percent of statements at levels A and B and
      90 at C, below 90 percent of decisions at A and 85 at B. */
  lemma ShortExactly(dal: Dal, e: Evidence)
    ensures var o := Objective(TableA7, 8, NOT_AT_D);
            DetermineObjectiveStatus(o, dal, e) == Partial <==>
              e.statementPercent.Some? && match dal
                case A => e.statementPercent.value < 95.0
                case B => e.statementPercent.value < 95.0
                case C => e.statementPercent.value < 90.0
                case D => false
    ensures var o := Objective(TableA7, 9, AT_A_AND_B);
            DetermineObjectiveStatus(o, dal, e) == Partial <==>
              e.branchPercent.Some? && match dal
                case A => e.branchPercent.value < 90.0
                case B => e.branchPercent.value < 85.0
                case C => false
                case D => false
  {
  }

  lemma NestedRow(o: Objective, strict: Dal, lax: Dal, e: Evidence, f: Evidence)
    requires Order(strict) <= Order(lax) && Nested(o)
    ensures RowOf(o, lax, e).detail != NotApplicable ==> RowOf(o, strict, f).detail != NotApplicable
  {
    hide DetermineObjectiveStatus;
    assert ApplicabilityFor(o, lax) != NotApplicable ==> ApplicabilityFor(o, strict) != NotApplicable;
  }

  lemma {:induction false} FewerApplicable(r: seq<Row>, q: seq<Row>)
    requires |r| == |q| && forall i :: 0 <= i < |r| && r[i].detail != NotApplicable ==> q[i].detail != NotApplicable
    ensures CountApplicable(r) <= CountApplicable(q)
    decreases |r|
  {
    if r != [] {
      FewerApplicable(r[..|r| - 1], q[..|q| - 1]);
    }
  }

  /** The stricter the level, the more objectives apply. */
  lemma ApplicableFalls(strict: Dal, lax: Dal, e: Evidence, f: Evidence)
    requires Order(strict) <= Order(lax)
    ensures CountApplicable(Rows(OBJECTIVES, lax, e)) <= CountApplicable(Rows(OBJECTIVES, strict, f))
  {
    hide OBJECTIVES, DetermineObjectiveStatus, ApplicabilityFor, Nested, Order, RowOf;
    TableIsNested();
    forall i | 0 <= i < |OBJECTIVES| && Rows(OBJECTIVES, lax, e)[i].detail != NotApplicable ensures Rows(OBJECTIVES, strict, f)[i].detail != NotApplicable {
      NestedRow(OBJECTIVES[i], strict, lax, e, f);
    }
    FewerApplicable(Rows(OBJECTIVES, lax, e), Rows(OBJECTIVES, strict, f));
  }

  /** Wherever a structural-coverage objective applies, a gate applies too, so
      the verdict for a missing gate is never reported. */
  lemma GateWhereApplicable(o: Objective, dal: Dal)
    requires o in OBJECTIVES && o.table == TableA7 && ApplicabilityFor(o, dal) != NotApplicable
    ensures o.number == 8 ==> StatementGate(dal).Some?
    ensures o.number == 9 ==> BranchGate(dal).Some?
  {
    assert o in TABLE_A7;
  }

  // ------------------------------------------------- what earns each verdict

  predicate TestsCredited(e: Evidence) { e.testsPassed == Some(true) && e.hasTestResults }

  predicate TraceCredited(e: Evidence) { e.hasTraceData && e.traceValidationPassed }

  predicate AtGate(percent: Option<real>, gate: Option<nat>) { percent.Some? && gate.Some? && percent.value >= gate.value as real }

  function Id(o: Objective): (Table, nat) { (o.table, o.number) }

  /** An objective is met by tool evidence alone in four ways only: validated
      trace links, passing tests with per-test outcomes, passing tests on the
      target, and statement coverage at its gate with a recorded disposition. */
  lemma MetExactly(o: Objective, dal: Dal, e: Evidence)
    ensures DetermineObjectiveStatus(o, dal, e) == Met <==>
            || (Id(o) in {(TableA3, 6), (TableA4, 6)} && TraceCredited(e))
            || (Id(o) in {(TableA7, 3), (TableA7, 4)} && TestsCredited(e) && e.hasPerTestOutcomes)
            || (Id(o) == (TableA7, 5) && TestsCredited(e))
            || (Id(o) == (TableA7, 8) && AtGate(e.statementPercent, StatementGate(dal)) && e.disposition.Some?)
  {
  }

  /** An objective of the table gets partial credit exactly here; red or absent
      tests never earn any. */
  lemma PartialExactly(o: Objective, dal: Dal, e: Evidence)
    ensures DetermineObjectiveStatus(o, dal, e) == Partial <==>
            || (Id(o) in {(TableA3, 6), (TableA4, 6)} && e.hasTraceData && !e.traceValidationPassed)
            || (Id(o) == (TableA6, 5) && TraceCredited(e))
            || (Id(o) in {(TableA7, 1), (TableA7, 2)} && TestsCredited(e))
            || (Id(o) in {(TableA7, 3), (TableA7, 4)} && TestsCredited(e) && !e.hasPerTestOutcomes)
            || (Id(o) in {(TableA7, 6), (TableA7, 7)} && TraceCredited(e) && e.hasTestResults)
            || (Id(o) == (TableA7, 8) && e.statementPercent.Some? && StatementGate(dal).Some? && !AtGate(e.statementPercent, StatementGate(dal)))
            || (Id(o) == (TableA7, 9) && e.branchPercent.Some? && BranchGate(dal).Some? && !AtGate(e.branchPercent, BranchGate(dal)))
  {
  }

  /** A verdict is left to manual review exactly for the objectives no tool can
      judge, and for coverage that the numbers alone cannot close. */
  lemma ReviewExactly(o: Objective, dal: Dal, e: Evidence)
    ensures DetermineObjectiveStatus(o, dal, e) == ManualReviewRequired <==>
            || (o.table in {TableA3, TableA4} && o.number != 6)
            || o.table == TableA5
            || (o.table == TableA6 && o.number != 5)
            || (Id(o) == (TableA7, 8) && e.statementPercent.Some? && StatementGate(dal).None?)
            || (Id(o) == (TableA7, 8) && AtGate(e.statementPercent, StatementGate(dal)) && e.disposition.None?)
            || (Id(o) == (TableA7, 9) && e.branchPercent.Some? && (BranchGate(dal).None? || AtGate(e.branchPercent, BranchGate(dal))))
  {
  }
}
