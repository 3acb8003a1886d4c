/** Order independence of the capture, and the cross-check between suite
    summaries and test events. */
module NextestReconcile {
  import opened Ordering
  import opened Nextest
  import opened NextestSummary
  import opened Wrappers

  // ----------------------------------------------------------- counting tests

  predicate Named(o: Outcome, e: Event) { e.Test? && e.name.Some? && e.outcome == o }

  function AddNamed(o: Outcome): (nat, Event) -> nat { (t: nat, e: Event) => if Named(o, e) then t + 1 else t }

  /** How many named test events report outcome `o`. */
  function NamedCount(o: Outcome, events: seq<Event>): nat { FoldLeft(AddNamed(o), 0, events) }

  lemma NamedSnoc(o: Outcome, events: seq<Event>, e: Event)
    ensures NamedCount(o, events + [e]) == NamedCount(o, events) + (if Named(o, e) then 1 else 0)
  {
    FoldAppend(AddNamed(o), 0, events, [e]);
  }

  /** The outcome a record was built from. */
  function OutcomeOf(r: Record): Outcome { if r.ignored then Ignored else if r.passed then Ok else Failed }

  function CountRecords(o: Outcome, records: seq<Record>): nat {
    if records == [] then 0
    else CountRecords(o, records[..|records| - 1]) + (if OutcomeOf(records[|records| - 1]) == o then 1 else 0)
  }

  lemma BuiltOutcome(name: string, e: Event)
    requires e.Test?
    ensures OutcomeOf(BuildRecord(name, e)) == e.outcome
  {
    hide ParseIdentity;
  }

  lemma CountRecordsSnoc(o: Outcome, records: seq<Record>, r: Record)
    ensures CountRecords(o, records + [r]) == CountRecords(o, records) + (if OutcomeOf(r) == o then 1 else 0)
  {
    hide OutcomeOf;
    assert (records + [r])[..|records|] == records;
  }

  lemma {:induction false} RecordsAreTests(o: Outcome, events: seq<Event>)
    ensures CountRecords(o, RawRecords(events)) == NamedCount(o, events)
  {
    hide BuildRecord, OutcomeOf, CountRecords, NamedCount;
    if events == [] {
      NoTests(o);
    } else {
      var rest, e := events[..|events| - 1], events[|events| - 1];
      RecordsAreTests(o, rest);
      assert events == rest + [e];
      NamedSnoc(o, rest, e);
      if e.Test? && e.name.Some? {
        BuiltOutcome(e.name.value, e);
        CountRecordsSnoc(o, RawRecords(rest), BuildRecord(e.name.value, e));
      }
    }
  }

  lemma NoTests(o: Outcome)
    ensures CountRecords(o, []) == 0 && NamedCount(o, []) == 0
  {
  }

  function CountStep(o: Outcome): (nat, Record) -> nat {
    (t: nat, r: Record) => if OutcomeOf(r) == o then t + 1 else t
  }

  lemma {:induction false} CountAsFold(o: Outcome, records: seq<Record>)
    ensures CountRecords(o, records) == FoldLeft(CountStep(o), 0, records)
  {
    if records != [] {
      var rest, last := records[..|records| - 1], records[|records| - 1];
      CountAsFold(o, rest);
      FoldAppend(CountStep(o), 0, rest, [last]);
      assert records == rest + [last];
    }
  }

  lemma CountPermutes(o: Outcome, a: seq<Record>, b: seq<Record>)
    requires multiset(a) == multiset(b)
    ensures CountRecords(o, a) == CountRecords(o, b)
  {
    CountAsFold(o, a);
    CountAsFold(o, b);
    FoldPermutation(CountStep(o), 0, a, b);
  }

  // -------------------------------------------------------- order independence

  lemma TotalsOrderFree(events: seq<Event>, events': seq<Event>)
    requires multiset(events) == multiset(events')
    ensures ExactSummary(events) == ExactSummary(events')
    ensures AnonymousCount(events) == AnonymousCount(events')
    ensures Binaries(events) == Binaries(events')
    ensures forall o :: NamedCount(o, events) == NamedCount(o, events')
  {
    hide PassedTotal, FailedTotal, AnonymousCount, AnonymousIgnored, AnonymousFiltered, IgnoredMap, FilteredMap, Binaries,
      NamedCount, SumMap;
    CountersOrderFree(events, events');
    MapsOrderFree(events, events');
    BinariesOrderFree(events, events');
    forall o ensures NamedCount(o, events) == NamedCount(o, events') {
      NamedOrderFree(o, events, events');
    }
  }

  lemma CountersOrderFree(events: seq<Event>, events': seq<Event>)
    requires multiset(events) == multiset(events')
    ensures PassedTotal(events) == PassedTotal(events') && FailedTotal(events) == FailedTotal(events')
    ensures AnonymousCount(events) == AnonymousCount(events')
    ensures AnonymousIgnored(events) == AnonymousIgnored(events') && AnonymousFiltered(events) == AnonymousFiltered(events')
  {
    FoldPermutation(AddPassed, 0, events, events');
    FoldPermutation(AddFailed, 0, events, events');
    FoldPermutation(AddAnonymous, 0, events, events');
    FoldPermutation(AddAnonymousIgnored, 0, events, events');
    FoldPermutation(AddAnonymousFiltered, 0, events, events');
  }

  lemma MapsOrderFree(events: seq<Event>, events': seq<Event>)
    requires multiset(events) == multiset(events')
    ensures IgnoredMap(events) == IgnoredMap(events') && FilteredMap(events) == FilteredMap(events')
  {
    hide MaxIgnored, MinFiltered, Binaries;
    BinariesOrderFree(events, events');
    forall b: Binary
      ensures MaxIgnored(events, b) == MaxIgnored(events', b)
      ensures MinFiltered(events, b) == MinFiltered(events', b)
    {
      ReportsOrderFree(events, events', b);
    }
  }

  lemma NamedOrderFree(o: Outcome, events: seq<Event>, events': seq<Event>)
    requires multiset(events) == multiset(events')
    ensures NamedCount(o, events) == NamedCount(o, events')
  {
    FoldPermutation(AddNamed(o), 0, events, events');
  }

  lemma BinariesOrderFree(events: seq<Event>, events': seq<Event>)
    requires multiset(events) == multiset(events')
    ensures Binaries(events) == Binaries(events')
  {
    forall s, x, y ensures AddBinary(AddBinary(s, x), y) == AddBinary(AddBinary(s, y), x) {
    }
    FoldPermutation(AddBinary, {}, events, events');
  }

  lemma ReportsOrderFree(events: seq<Event>, events': seq<Event>, b: Binary)
    requires multiset(events) == multiset(events')
    ensures MaxIgnored(events, b) == MaxIgnored(events', b)
    ensures MinFiltered(events, b) == MinFiltered(events', b)
  {
    FoldPermutation(IgnoredStep(b), 0, events, events');
    FoldPermutation(FilteredStep(b), None, events, events');
  }

  function AddRecord(bag: multiset<Record>, e: Event): multiset<Record> {
    if e.Test? && e.name.Some? then bag + multiset{BuildRecord(e.name.value, e)} else bag
  }

  lemma {:induction false} RecordBag(events: seq<Event>)
    ensures multiset(RawRecords(events)) == FoldLeft(AddRecord, multiset{}, events)
  {
    hide BuildRecord, FoldLeft, AddRecord;
    if events == [] {
      FoldOnce(multiset{}, []);
    } else {
      var rest, e := events[..|events| - 1], events[|events| - 1];
      RecordBag(rest);
      assert events == rest + [e];
      FoldAppend(AddRecord, multiset{}, rest, [e]);
      FoldOnce(FoldLeft(AddRecord, multiset{}, rest), [e]);
      AddedRecord(rest, e);
    }
  }

  lemma FoldOnce(bag: multiset<Record>, events: seq<Event>)
    requires |events| <= 1
    ensures FoldLeft(AddRecord, bag, events) == if events == [] then bag else AddRecord(bag, events[0])
  {
    hide AddRecord;
  }

  lemma AddedRecord(rest: seq<Event>, e: Event)
    ensures multiset(RawRecords(rest + [e])) == AddRecord(multiset(RawRecords(rest)), e)
  {
    hide BuildRecord;
    assert (rest + [e])[..|rest|] == rest;
  }

  lemma RecordsOrderFree(events: seq<Event>, events': seq<Event>)
    requires multiset(events) == multiset(events')
    ensures multiset(RawRecords(events)) == multiset(RawRecords(events'))
  {
    hide BuildRecord;
    RecordBag(events);
    RecordBag(events');
    forall bag, x, y ensures AddRecord(AddRecord(bag, x), y) == AddRecord(AddRecord(bag, y), x) {
    }
    FoldPermutation(AddRecord, multiset{}, events, events');
  }

  /** Main result: reordering the lines of a stream never changes the summary,
      nor the records when no two tests share module path and name. */
  lemma CaptureOrderFree(events: seq<Event>, events': seq<Event>)
    requires multiset(events) == multiset(events')
    requires ProperEvents(events) && AnonymousCount(events) <= U32_SIZE
    ensures SummaryOf(Suites(events).0) == SummaryOf(Suites(events').0)
    ensures DistinctKeys(RecordKey, RawRecords(events)) ==>
      SortBy(RecordKey, StringPairLeq, RawRecords(events)) == SortBy(RecordKey, StringPairLeq, RawRecords(events'))
  {
    hide SummaryOf, Suites, ExactSummary, RawRecords, AnonymousCount;
    PermutationElements(events, events');
    TotalsOrderFree(events, events');
    SummaryIsExact(events);
    SummaryIsExact(events');
    RecordsOrderFree(events, events');
    if DistinctKeys(RecordKey, RawRecords(events)) {
      StringPairOrder();
      SortByCanonical(RecordKey, StringPairLeq, RawRecords(events), RawRecords(events'));
    }
  }

  // --------------------------------------------------------------- the cross-check

  datatype Discrepancy = Discrepancy(dimension: string, summary: nat, records: nat)

  function Check(dimension: string, summary: nat, records: nat): seq<Discrepancy> {
    if summary != records then [Discrepancy(dimension, summary, records)] else []
  }

  /** One entry per dimension in which summary and records disagree, the record
      counters wrapping at 2^32. */
  function Discrepancies(run: Run): seq<Discrepancy> {
    Check("passed", run.summary.passed, Wrapping(CountRecords(Ok, run.records)))
    + Check("failed", run.summary.failed, Wrapping(CountRecords(Failed, run.records)))
    + Check("ignored", run.summary.ignored, Wrapping(CountRecords(Ignored, run.records)))
  }

  function Wrapping(n: nat): nat { n % U32_SIZE }

  /** The record counters start over at 2^32, as `wrapping_add` does. */
  lemma WrapsExactly(n: nat)
    ensures n < 0x1_0000_0000 ==> Wrapping(n) == n
    ensures Wrapping(n + 0x1_0000_0000) == Wrapping(n)
  {
  }

  lemma WrapNext(n: nat)
    ensures Wrapping(Wrapping(n) + 1) == Wrapping(n + 1)
  {
  }

  lemma CountSnoc(o: Outcome, records: seq<Record>, i: nat)
    requires i < |records|
    ensures CountRecords(o, records[..i + 1]) == CountRecords(o, records[..i]) + (if OutcomeOf(records[i]) == o then 1 else 0)
  {
    assert records[..i + 1][..i] == records[..i];
  }

  method Reconcile(run: Run) returns (ds: seq<Discrepancy>)
    ensures ds == Discrepancies(run)
  {
    hide CountRecords, Wrapping;
    var recPassed, recFailed, recIgnored := 0, 0, 0;
    NoRecords();
    assert run.records[..0] == [];
    for i := 0 to |run.records|
      invariant recPassed == Wrapping(CountRecords(Ok, run.records[..i]))
      invariant recFailed == Wrapping(CountRecords(Failed, run.records[..i]))
      invariant recIgnored == Wrapping(CountRecords(Ignored, run.records[..i]))
    {
      var r := run.records[i];
      forall o ensures CountRecords(o, run.records[..i + 1]) == CountRecords(o, run.records[..i]) + (if OutcomeOf(r) == o then 1 else 0)
      {
        CountSnoc(o, run.records, i);
      }
      WrapNext(CountRecords(OutcomeOf(r), run.records[..i]));
      if r.ignored {
        recIgnored := Wrapping(recIgnored + 1);
      } else if r.passed {
        recPassed := Wrapping(recPassed + 1);
      } else {
        recFailed := Wrapping(recFailed + 1);
      }
    }
    assert run.records[..|run.records|] == run.records;
    ds := Check("passed", run.summary.passed, recPassed) + Check("failed", run.summary.failed, recFailed)
      + Check("ignored", run.summary.ignored, recIgnored);
  }

  lemma NoRecords()
    ensures forall o :: Wrapping(CountRecords(o, [])) == 0
  {
  }

  /** The run a stream is parsed into. */
  ghost function RunOf(events: seq<Event>): Run {
    Run(SortBy(RecordKey, StringPairLeq, RawRecords(events)), SummaryOf(Suites(events).0))
  }

  /** What the cross-check compares, in terms of the stream. */
  lemma DiscrepanciesOf(events: seq<Event>)
    requires ProperEvents(events) && AnonymousCount(events) <= U32_SIZE
    ensures Discrepancies(RunOf(events)) ==
      Check("passed", Clip(PassedTotal(events)), Wrapping(NamedCount(Ok, events)))
      + Check("failed", Clip(FailedTotal(events)), Wrapping(NamedCount(Failed, events)))
      + Check("ignored", Clip(IgnoredTotal(events)), Wrapping(NamedCount(Ignored, events)))
  {
    hide SummaryOf, Suites, RawRecords, AnonymousCount, PassedTotal, FailedTotal, IgnoredTotal, FilteredTotal, NamedCount,
      Check, Clip;
    SummaryIsExact(events);
    StringPairOrder();
    SortByFacts(RecordKey, StringPairLeq, RawRecords(events));
    forall o ensures CountRecords(o, RunOf(events).records) == NamedCount(o, events) {
      RecordsAreTests(o, events);
      CountPermutes(o, RawRecords(events), RunOf(events).records);
    }
  }

  /** A saturated total and a wrapped count agree exactly when the counts are
      equal, as long as neither overflows. */
  lemma ClipAgainstWrap(total: nat, count: nat)
    requires total <= U32_MAX && count <= U32_MAX
    ensures Clip(total) == Wrapping(count) <==> total == count
  {
  }

  // ------------------------------------------------------ well-formed streams

  /** One execution group: its tests, how many ignored tests it reports for the
      whole binary, and how many it filtered out. */
  datatype Partition = Partition(tests: seq<Event>, ignored: nat, filteredOut: nat)

  /** One test binary, run in one or more groups. Its ignored tests are listed
      once; no group reports more of them than there are, and one reports all. */
  datatype BinaryRun = BinaryRun(binary: Binary, partitions: seq<Partition>, ignoredTests: seq<Event>)

  predicate Executed(e: Event) { Named(Ok, e) || Named(Failed, e) }

  predicate WellFormedBinary(r: BinaryRun) {
    && Proper(r.binary)
    && (forall p :: p in r.partitions ==> p.ignored <= |r.ignoredTests| && forall e :: e in p.tests ==> Executed(e))
    && (exists p :: p in r.partitions && p.ignored == |r.ignoredTests|)
    && (forall e :: e in r.ignoredTests ==> Named(Ignored, e))
  }

  /** The summary of one group: its own passes and failures, and its report of
      the binary's ignored count. */
  function SummaryEvent(r: BinaryRun, p: Partition): Event {
    Suite(Some(r.binary), Some(NamedCount(Ok, p.tests)), Some(NamedCount(Failed, p.tests)), Some(p.ignored),
          Some(p.filteredOut))
  }

  /** The largest ignored count the first `k` groups report. */
  function LargestReport(r: BinaryRun, k: nat): nat
    requires k <= |r.partitions|
  {
    if k == 0 then 0 else Max(LargestReport(r, k - 1), r.partitions[k - 1].ignored)
  }

  lemma {:induction false} ReportsBound(r: BinaryRun, k: nat)
    requires WellFormedBinary(r) && k <= |r.partitions|
    ensures LargestReport(r, k) <= |r.ignoredTests|
    ensures forall i :: 0 <= i < k ==> r.partitions[i].ignored <= LargestReport(r, k)
  {
    hide Proper, Executed;
    if k > 0 {
      ReportsBound(r, k - 1);
      assert r.partitions[k - 1] in r.partitions;
    }
  }

  lemma FullReport(r: BinaryRun)
    requires WellFormedBinary(r)
    ensures LargestReport(r, |r.partitions|) == |r.ignoredTests|
  {
    hide Proper, Executed, LargestReport;
    ReportsBound(r, |r.partitions|);
    var p :| p in r.partitions && p.ignored == |r.ignoredTests|;
    var i :| 0 <= i < |r.partitions| && r.partitions[i] == p;
  }

  function EmitPartitions(r: BinaryRun, k: nat): seq<Event>
    requires k <= |r.partitions|
  {
    if k == 0 then []
    else EmitPartitions(r, k - 1) + r.partitions[k - 1].tests + [SummaryEvent(r, r.partitions[k - 1])]
  }

  function EmitBinary(r: BinaryRun): seq<Event> { EmitPartitions(r, |r.partitions|) + r.ignoredTests }

  function Emit(rs: seq<BinaryRun>): seq<Event> {
    if rs == [] then [] else Emit(rs[..|rs| - 1]) + EmitBinary(rs[|rs| - 1])
  }

  /** Distinct, well-formed binaries whose test counts fit in 32 bits. */
  ghost predicate WellFormed(rs: seq<BinaryRun>) {
    && (forall i :: 0 <= i < |rs| ==> WellFormedBinary(rs[i]))
    && (forall i, j :: 0 <= i < j < |rs| ==> rs[i].binary != rs[j].binary)
    && (forall o :: NamedCount(o, Emit(rs)) <= U32_MAX)
  }

  lemma {:induction false} NamedConcat(o: Outcome, a: seq<Event>, b: seq<Event>)
    ensures NamedCount(o, a + b) == NamedCount(o, a) + NamedCount(o, b)
  {
    if b == [] {
      assert a + b == a;
    } else {
      var rest, e := b[..|b| - 1], b[|b| - 1];
      NamedConcat(o, a, rest);
      assert a + b == (a + rest) + [e] && b == rest + [e];
      NamedSnoc(o, a + rest, e);
      NamedSnoc(o, rest, e);
    }
  }

  /** A line the parser reads past: no suite summary and no named test. */
  predicate Skipped(e: Event) { e.Other? || (e.Test? && e.name.None?) }

  lemma {:induction false} SkippedCount(o: Outcome, skipped: seq<Event>)
    requires forall e :: e in skipped ==> Skipped(e)
    ensures NamedCount(o, skipped) == 0
  {
    if skipped != [] {
      var rest, e := skipped[..|skipped| - 1], skipped[|skipped| - 1];
      assert skipped == rest + [e] && e in skipped;
      SkippedCount(o, rest);
      NamedSnoc(o, rest, e);
    }
  }

  /** Appending lines other than suite summaries changes no suite total. */
  lemma {:induction false} TestsKeepTotals(a: seq<Event>, tests: seq<Event>)
    requires forall e :: e in tests ==> !e.Suite?
    ensures PassedTotal(a + tests) == PassedTotal(a) && FailedTotal(a + tests) == FailedTotal(a)
    ensures IgnoredMap(a + tests) == IgnoredMap(a) && IgnoredTotal(a + tests) == IgnoredTotal(a)
    ensures AnonymousCount(a + tests) == AnonymousCount(a) && Binaries(a + tests) == Binaries(a)
    ensures forall b :: MaxIgnored(a + tests, b) == MaxIgnored(a, b)
  {
    hide MaxIgnored, Binaries, SumMap, FoldLeft, PassedTotal, FailedTotal, AnonymousCount, AnonymousIgnored, IgnoredMap;
    if tests == [] {
      assert a + tests == a;
    } else {
      var rest, e := tests[..|tests| - 1], tests[|tests| - 1];
      assert a + tests == (a + rest) + [e] && e in tests;
      TestsKeepTotals(a, rest);
      Snoc(a + rest, e);
      SnocTotals(a + rest, e);
      forall b ensures MaxIgnored(a + tests, b) == MaxIgnored(a, b) {
        SnocPerBinary(a + rest, e, b);
      }
    }
  }

  /** One more group: its tests, then its summary. */
  lemma PartitionTotals(a: seq<Event>, r: BinaryRun, p: Partition)
    requires WellFormedBinary(r) && p in r.partitions
    requires |r.ignoredTests| <= U32_MAX && forall o :: NamedCount(o, p.tests) <= U32_MAX
    ensures
      var x := a + p.tests + [SummaryEvent(r, p)];
      && PassedTotal(x) == PassedTotal(a) + NamedCount(Ok, p.tests)
      && FailedTotal(x) == FailedTotal(a) + NamedCount(Failed, p.tests)
      && AnonymousCount(x) == AnonymousCount(a)
      && Binaries(x) == Binaries(a) + {r.binary}
      && MaxIgnored(x, r.binary) == Max(MaxIgnored(a, r.binary), p.ignored)
      && IgnoredTotal(x) - MaxIgnored(x, r.binary) == IgnoredTotal(a) - MaxIgnored(a, r.binary)
  {
    hide MaxIgnored, Binaries, PassedTotal, FailedTotal, AnonymousCount, IgnoredTotal, NamedCount, IgnoredMap, Proper;
    var y, e := a + p.tests, SummaryEvent(r, p);
    TestsKeepTotals(a, p.tests);
    Snoc(y, e);
    SnocPerBinary(y, e, r.binary);
    NamedSums(y, e, r.binary);
  }

  lemma {:induction false} NoIgnoredExecuted(tests: seq<Event>)
    requires forall e :: e in tests ==> Executed(e)
    ensures NamedCount(Ignored, tests) == 0
  {
    if tests != [] {
      var rest, e := tests[..|tests| - 1], tests[|tests| - 1];
      assert tests == rest + [e] && e in tests;
      NoIgnoredExecuted(rest);
      NamedSnoc(Ignored, rest, e);
    }
  }

  lemma {:induction false} OnlyIgnored(tests: seq<Event>)
    requires forall e :: e in tests ==> Named(Ignored, e)
    ensures NamedCount(Ignored, tests) == |tests| && NamedCount(Ok, tests) == 0 && NamedCount(Failed, tests) == 0
  {
    if tests != [] {
      var rest, e := tests[..|tests| - 1], tests[|tests| - 1];
      assert tests == rest + [e] && e in tests;
      OnlyIgnored(rest);
      NamedSnoc(Ignored, rest, e);
      NamedSnoc(Ok, rest, e);
      NamedSnoc(Failed, rest, e);
    }
  }

  lemma EmitPartitionsCount(r: BinaryRun, k: nat)
    requires 0 < k <= |r.partitions|
    ensures forall o ::
      NamedCount(o, EmitPartitions(r, k)) == NamedCount(o, EmitPartitions(r, k - 1)) + NamedCount(o, r.partitions[k - 1].tests)
  {
    var front, p := EmitPartitions(r, k - 1), r.partitions[k - 1];
    forall o ensures NamedCount(o, EmitPartitions(r, k)) == NamedCount(o, front) + NamedCount(o, p.tests) {
      NamedConcat(o, front, p.tests);
      NamedSnoc(o, front + p.tests, SummaryEvent(r, p));
    }
  }

  lemma PartitionRun(r: BinaryRun, k: nat)
    requires WellFormedBinary(r) && 0 < k <= |r.partitions|
    ensures r.partitions[k - 1] in r.partitions && NamedCount(Ignored, r.partitions[k - 1].tests) == 0
  {
    hide NamedCount, Proper, Executed;
    NoIgnoredExecuted(r.partitions[k - 1].tests);
  }

  lemma EmitStep(a: seq<Event>, r: BinaryRun, k: nat)
    requires 0 < k <= |r.partitions|
    ensures a + EmitPartitions(r, k) ==
      (a + EmitPartitions(r, k - 1)) + r.partitions[k - 1].tests + [SummaryEvent(r, r.partitions[k - 1])]
    ensures LargestReport(r, k) == Max(LargestReport(r, k - 1), r.partitions[k - 1].ignored)
  {
    hide SummaryEvent;
  }

  lemma NothingEmitted(a: seq<Event>, r: BinaryRun)
    requires r.binary !in Binaries(a)
    ensures a + EmitPartitions(r, 0) == a && MaxIgnored(a, r.binary) == 0 && LargestReport(r, 0) == 0
    ensures forall o :: NamedCount(o, EmitPartitions(r, 0)) == 0
  {
    UnreportedBinary(a, r.binary);
  }

  lemma {:induction false} PartitionsTotals(a: seq<Event>, r: BinaryRun, k: nat)
    requires WellFormedBinary(r) && k <= |r.partitions| && r.binary !in Binaries(a)
    requires |r.ignoredTests| <= U32_MAX && forall o :: NamedCount(o, EmitPartitions(r, k)) <= U32_MAX
    ensures
      var emitted := EmitPartitions(r, k);
      var x := a + emitted;
      && PassedTotal(x) == PassedTotal(a) + NamedCount(Ok, emitted)
      && FailedTotal(x) == FailedTotal(a) + NamedCount(Failed, emitted)
      && NamedCount(Ignored, emitted) == 0
      && AnonymousCount(x) == AnonymousCount(a)
      && Binaries(x) == Binaries(a) + (if k > 0 then {r.binary} else {})
      && MaxIgnored(x, r.binary) == LargestReport(r, k)
      && IgnoredTotal(x) == IgnoredTotal(a) + MaxIgnored(x, r.binary)
  {
    hide MaxIgnored, Binaries, PassedTotal, FailedTotal, AnonymousCount, IgnoredTotal, NamedCount, SummaryEvent, WellFormedBinary,
      EmitPartitions, LargestReport;
    if k == 0 {
      NothingEmitted(a, r);
    } else {
      var front, p := EmitPartitions(r, k - 1), r.partitions[k - 1];
      EmitPartitionsCount(r, k);
      forall o ensures NamedCount(o, front) <= U32_MAX && NamedCount(o, p.tests) <= U32_MAX {
        assert NamedCount(o, EmitPartitions(r, k)) <= U32_MAX;
      }
      PartitionsTotals(a, r, k - 1);
      PartitionRun(r, k);
      PartitionTotals(a + front, r, p);
      EmitStep(a, r, k);
    }
  }

  lemma BinaryTotals(a: seq<Event>, r: BinaryRun)
    requires WellFormedBinary(r) && r.binary !in Binaries(a)
    requires forall o :: NamedCount(o, EmitBinary(r)) <= U32_MAX
    ensures
      var emitted := EmitBinary(r);
      var x := a + emitted;
      && PassedTotal(x) == PassedTotal(a) + NamedCount(Ok, emitted)
      && FailedTotal(x) == FailedTotal(a) + NamedCount(Failed, emitted)
      && IgnoredTotal(x) == IgnoredTotal(a) + NamedCount(Ignored, emitted)
      && AnonymousCount(x) == AnonymousCount(a)
      && Binaries(x) == Binaries(a) + {r.binary}
  {
    hide MaxIgnored, Binaries, PassedTotal, FailedTotal, AnonymousCount, IgnoredTotal, NamedCount, Proper, EmitPartitions;
    var front, tests := EmitPartitions(r, |r.partitions|), r.ignoredTests;
    forall o ensures NamedCount(o, EmitBinary(r)) == NamedCount(o, front) + NamedCount(o, tests) {
      NamedConcat(o, front, tests);
    }
    OnlyIgnored(tests);
    forall o ensures NamedCount(o, front) <= U32_MAX && NamedCount(o, tests) <= U32_MAX {
      assert NamedCount(o, EmitBinary(r)) <= U32_MAX;
    }
    assert NamedCount(Ignored, tests) <= U32_MAX;
    PartitionsTotals(a, r, |r.partitions|);
    FullReport(r);
    TestsKeepTotals(a + front, tests);
    assert a + EmitBinary(r) == a + front + tests;
  }

  lemma {:induction false} EmitTotals(rs: seq<BinaryRun>)
    requires WellFormed(rs)
    ensures PassedTotal(Emit(rs)) == NamedCount(Ok, Emit(rs)) && FailedTotal(Emit(rs)) == NamedCount(Failed, Emit(rs))
    ensures IgnoredTotal(Emit(rs)) == NamedCount(Ignored, Emit(rs)) && AnonymousCount(Emit(rs)) == 0
    ensures forall b :: b in Binaries(Emit(rs)) <==> exists i :: 0 <= i < |rs| && rs[i].binary == b
  {
    if rs == [] {
      EmptyTotals();
    } else {
      hide Binaries, PassedTotal, FailedTotal, AnonymousCount, IgnoredTotal, NamedCount, WellFormedBinary, EmitBinary;
      var rest, last := rs[..|rs| - 1], rs[|rs| - 1];
      assert rs == rest + [last];
      forall o
        ensures NamedCount(o, Emit(rs)) == NamedCount(o, Emit(rest)) + NamedCount(o, EmitBinary(last))
        ensures NamedCount(o, Emit(rest)) <= U32_MAX && NamedCount(o, EmitBinary(last)) <= U32_MAX
      {
        NamedConcat(o, Emit(rest), EmitBinary(last));
        assert NamedCount(o, Emit(rs)) <= U32_MAX;
      }
      EmitTotals(rest);
      BinaryTotals(Emit(rest), last);
    }
  }

  lemma EmptyTotals()
    ensures PassedTotal([]) == 0 && FailedTotal([]) == 0 && AnonymousCount([]) == 0 && IgnoredTotal([]) == 0
    ensures Binaries([]) == {} && forall o :: NamedCount(o, []) == 0
  {
    assert IgnoredMap([]) == map[];
    EmptySumMap<Binary>();
  }

  lemma {:induction false} SuitesAreBinaries(events: seq<Event>)
    ensures forall e :: e in events && e.Suite? && e.identity.Some? ==> e.identity.value in Binaries(events)
  {
    hide Binaries, PassedTotal, FailedTotal, AnonymousCount, AnonymousIgnored, AnonymousFiltered;
    if events != [] {
      var rest, e := events[..|events| - 1], events[|events| - 1];
      assert events == rest + [e];
      SuitesAreBinaries(rest);
      Snoc(rest, e);
    }
  }

  /** The stream holds the lines of the runs, and any skipped lines, in any
      order. */
  ghost predicate Captures(rs: seq<BinaryRun>, skipped: seq<Event>, stream: seq<Event>) {
    && WellFormed(rs)
    && (forall e :: e in skipped ==> Skipped(e))
    && multiset(stream) == multiset(Emit(rs) + skipped)
  }

  /** What the cross-check needs of a stream, for any order of its lines. */
  lemma EmittedStream(rs: seq<BinaryRun>, skipped: seq<Event>, stream: seq<Event>)
    requires Captures(rs, skipped, stream)
    ensures ProperEvents(stream) && AnonymousCount(stream) == 0
    ensures PassedTotal(stream) == NamedCount(Ok, stream) && FailedTotal(stream) == NamedCount(Failed, stream)
    ensures IgnoredTotal(stream) == NamedCount(Ignored, stream)
    ensures forall o :: NamedCount(o, stream) <= U32_MAX
  {
    hide Binaries, PassedTotal, FailedTotal, AnonymousCount, IgnoredTotal, NamedCount, EmitBinary, ExactSummary, Emit,
      FilteredTotal, IgnoredMap, SumMap;
    var emitted := Emit(rs) + skipped;
    EmitTotals(rs);
    TestsKeepTotals(Emit(rs), skipped);
    forall o ensures NamedCount(o, emitted) == NamedCount(o, Emit(rs)) {
      NamedConcat(o, Emit(rs), skipped);
      SkippedCount(o, skipped);
    }
    TotalsOrderFree(stream, emitted);
    SameTotals(stream, emitted);
    SuitesAreBinaries(stream);
    forall b | b in Binaries(stream) ensures Proper(b) {
      var i :| 0 <= i < |rs| && rs[i].binary == b;
      assert WellFormedBinary(rs[i]);
    }
  }

  lemma SameTotals(events: seq<Event>, events': seq<Event>)
    requires multiset(events) == multiset(events')
    ensures PassedTotal(events) == PassedTotal(events') && FailedTotal(events) == FailedTotal(events')
    ensures IgnoredTotal(events) == IgnoredTotal(events')
  {
    hide PassedTotal, FailedTotal, AnonymousIgnored, IgnoredMap, SumMap;
    CountersOrderFree(events, events');
    MapsOrderFree(events, events');
  }

  /** Main result: a well-formed partitioned capture reconciles, whatever skipped
      lines it holds and in whatever order its lines arrive. */
  lemma WellFormedReconciles(rs: seq<BinaryRun>, skipped: seq<Event>, stream: seq<Event>)
    requires Captures(rs, skipped, stream)
    ensures Discrepancies(RunOf(stream)) == []
  {
    hide PassedTotal, FailedTotal, AnonymousCount, IgnoredTotal, NamedCount, Captures, RunOf, Discrepancies, Clip,
      Wrapping;
    EmittedStream(rs, skipped, stream);
    DiscrepanciesOf(stream);
    forall o ensures Clip(NamedCount(o, stream)) == Wrapping(NamedCount(o, stream)) {
      ClipAgainstWrap(NamedCount(o, stream), NamedCount(o, stream));
    }
  }
}
