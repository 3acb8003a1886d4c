/** Reduction of a nextest event stream to test records and a summary
    (`bundle/nextest.rs`). JSON decoding is not part of this model: an event is
    the decoded line, and a line the parser skips is `Other`. */
module Nextest {
  import opened Ordering
  import opened Text
  import opened Wrappers

  const U32_MAX: nat := 0xFFFF_FFFF
  const U32_SIZE: nat := 0x1_0000_0000

  /** The `nextest` object of a suite event. */
  datatype Binary = Binary(crate: string, testBinary: string, kind: string)

  datatype Outcome = Ok | Failed | Ignored

  /** A decoded line. Counts are `None` when absent or not an unsigned integer. */
  datatype Event =
    | Suite(identity: Option<Binary>, passed: Option<nat>, failed: Option<nat>, ignored: Option<nat>, filteredOut: Option<nat>)
    | Test(outcome: Outcome, name: Option<string>, stdout: Option<string>)
    | Other

  datatype Record = Record(name: string, modulePath: string, package: string, binary: string, harness: string,
    passed: bool, ignored: bool, failureMessage: Option<string>)

  datatype Summary = Summary(total: nat, passed: nat, failed: nat, ignored: nat, filteredOut: nat)

  datatype Run = Run(records: seq<Record>, summary: Summary)

  // -------------------------------------------------------------- saturation

  function Clip(n: nat): nat { if n > U32_MAX then U32_MAX else n }

  /** `u32::saturating_add`. */
  function SaturatingAdd(a: nat, b: nat): nat { Clip(a + b) }

  function Max(a: nat, b: nat): nat { if a < b then b else a }

  function Min(a: nat, b: nat): nat { if a < b then a else b }

  /** A count that does not fit in a `u32` reads as zero. */
  function Count(c: Option<nat>): nat { if c.Some? && c.value <= U32_MAX then c.value else 0 }

  // ---------------------------------------------------------- suite summaries

  /** The per-binary reduction of partitioned suite summaries. */
  datatype SuiteTally = SuiteTally(passed: nat, failed: nat, ignored: nat, filteredOut: Option<nat>) {
    function Fold(e: Event): SuiteTally
      requires e.Suite?
    {
      SuiteTally(
        SaturatingAdd(passed, Count(e.passed)),
        SaturatingAdd(failed, Count(e.failed)),
        Max(ignored, Count(e.ignored)),
        Some(if filteredOut.None? then Count(e.filteredOut) else Min(filteredOut.value, Count(e.filteredOut))))
    }
  }

  const EMPTY_TALLY: SuiteTally := SuiteTally(0, 0, 0, None)

  function BinaryKey(b: Binary): string { b.crate + "\0" + b.testBinary + "\0" + b.kind }

  function AnonymousKey(n: nat): string { "\0noident\0" + Dec(n) }

  function FilteredOr0(t: SuiteTally): nat { if t.filteredOut.Some? then t.filteredOut.value else 0 }

  // ----------------------------------------------------------------- identity

  /** `s.rsplit_once("::")`, or `None`. */
  function RSplitOnce(s: string): Option<(string, string)> {
    if |s| < 2 then None
    else if s[|s| - 2] == ':' && s[|s| - 1] == ':' then Some((s[..|s| - 2], ""))
    else
      match RSplitOnce(s[..|s| - 1])
      case None => None
      case Some((a, b)) => Some((a, b + [s[|s| - 1]]))
  }

  function Underscored(s: string): string { Replace(s, '-', "_") }

  /** Package, binary, module path and test name of `{crate}::{binary}${path}`. */
  datatype TestIdentity = TestIdentity(package: string, binary: string, modulePath: string, testName: string)

  function ModulePath(binary: string, chain: string): string {
    if binary == "" && chain == "" then ""
    else if binary == "" then chain
    else if chain == "" then binary
    else binary + "::" + chain
  }

  function ParseIdentity(name: string): TestIdentity {
    var (prefix, rest) := match SplitOnce(name, '$') case Some(p) => p case None => ("", name);
    var (package, binary) := match RSplitOnce(prefix)
      case Some((pkg, bin)) => (pkg, Underscored(bin))
      case None => ("", Underscored(prefix));
    var (chain, testName) := match RSplitOnce(rest) case Some(p) => p case None => ("", rest);
    TestIdentity(package, binary, ModulePath(binary, chain), testName)
  }

  function BuildRecord(name: string, e: Event): Record
    requires e.Test?
  {
    var id := ParseIdentity(name);
    Record(id.testName, id.modulePath, id.package, id.binary, "libtest", e.outcome.Ok?, e.outcome.Ignored?,
      if e.outcome.Failed? && e.stdout.Some? && e.stdout.value != "" then e.stdout else None)
  }

  function RecordKey(r: Record): (string, string) { (r.modulePath, r.name) }

  /** The records of a stream, in event order. */
  function RawRecords(events: seq<Event>): seq<Record> {
    if events == [] then []
    else
      var rest, e := RawRecords(events[..|events| - 1]), events[|events| - 1];
      if e.Test? && e.name.Some? then rest + [BuildRecord(e.name.value, e)] else rest
  }

  /** The suite map and the counter for suites without identity. */
  function Suites(events: seq<Event>): (map<string, SuiteTally>, nat) {
    if events == [] then (map[], 0)
    else
      var (suites, n), e := Suites(events[..|events| - 1]), events[|events| - 1];
      if !e.Suite? then (suites, n)
      else
        var key := if e.identity.Some? then BinaryKey(e.identity.value) else AnonymousKey(n);
        var n' := if e.identity.Some? then n else (n + 1) % U32_SIZE;
        var tally := if key in suites then suites[key] else EMPTY_TALLY;
        (suites[key := tally.Fold(e)], n')
  }

  // ----------------------------------------------------------------- the code

  /** One dimension of every tally. */
  datatype Dimension = PassedDim | FailedDim | IgnoredDim | FilteredDim

  function DimensionOf(d: Dimension, t: SuiteTally): nat {
    match d
    case PassedDim => t.passed
    case FailedDim => t.failed
    case IgnoredDim => t.ignored
    case FilteredDim => FilteredOr0(t)
  }

  function Entry(d: Dimension, suites: map<string, SuiteTally>, key: string): nat {
    if key in suites then DimensionOf(d, suites[key]) else 0
  }

  /** Sum of one dimension over the tallies of `keys`. */
  function SumOver(d: Dimension, keys: seq<string>, suites: map<string, SuiteTally>): nat {
    if keys == [] then 0
    else SumOver(d, keys[..|keys| - 1], suites) + Entry(d, suites, keys[|keys| - 1])
  }

  ghost function Total(d: Dimension, suites: map<string, SuiteTally>): nat {
    SumOver(d, InOrder(StringLeq, suites.Keys), suites)
  }

  /** The summary whose every entry is the exact sum, clipped once. */
  ghost function ClippedSummary(passed: nat, failed: nat, ignored: nat, filteredOut: nat): Summary {
    Summary(Clip(passed + failed + ignored + filteredOut), Clip(passed), Clip(failed), Clip(ignored), Clip(filteredOut))
  }

  /** Sum every dimension across the binaries, in key order. */
  method SumSuites(suites: map<string, SuiteTally>) returns (passed: nat, failed: nat, ignored: nat, filteredOut: nat)
    ensures passed == Clip(Total(PassedDim, suites)) && failed == Clip(Total(FailedDim, suites))
    ensures ignored == Clip(Total(IgnoredDim, suites)) && filteredOut == Clip(Total(FilteredDim, suites))
  {
    var keys := KeysInOrder(suites);
    StringOrder();
    InOrderFacts(StringLeq, suites.Keys);
    TotalIsSum(suites, keys);
    EmptySum(suites);
    ClipAdd(0, 0);
    hide StringLeq, InOrder, Total, SumOver, Clip, StrictlySorted, TotalOrder;
    passed, failed, ignored, filteredOut := 0, 0, 0, 0;
    assert keys[..0] == [];
    for i := 0 to |keys|
      invariant passed == Clip(SumOver(PassedDim, keys[..i], suites))
      invariant failed == Clip(SumOver(FailedDim, keys[..i], suites))
      invariant ignored == Clip(SumOver(IgnoredDim, keys[..i], suites))
      invariant filteredOut == Clip(SumOver(FilteredDim, keys[..i], suites))
    {
      assert keys[i] in suites;
      var t := suites[keys[i]];
      SumSnoc(keys, i, suites);
      ClipAdd(SumOver(PassedDim, keys[..i], suites), t.passed);
      ClipAdd(SumOver(FailedDim, keys[..i], suites), t.failed);
      ClipAdd(SumOver(IgnoredDim, keys[..i], suites), t.ignored);
      ClipAdd(SumOver(FilteredDim, keys[..i], suites), FilteredOr0(t));
      passed := SaturatingAdd(passed, t.passed);
      failed := SaturatingAdd(failed, t.failed);
      ignored := SaturatingAdd(ignored, t.ignored);
      filteredOut := SaturatingAdd(filteredOut, FilteredOr0(t));
    }
    assert keys[..|keys|] == keys;
  }

  /** What the summary of a suite map should be. */
  ghost function SummaryOf(suites: map<string, SuiteTally>): Summary {
    ClippedSummary(Total(PassedDim, suites), Total(FailedDim, suites), Total(IgnoredDim, suites),
                   Total(FilteredDim, suites))
  }

  method SummarizeSuites(suites: map<string, SuiteTally>) returns (s: Summary)
    ensures s == SummaryOf(suites)
  {
    hide Total, Clip;
    var passed, failed, ignored, filteredOut := SumSuites(suites);
    ClipFour(Total(PassedDim, suites), Total(FailedDim, suites), Total(IgnoredDim, suites), Total(FilteredDim, suites));
    var total := SaturatingAdd(SaturatingAdd(SaturatingAdd(passed, failed), ignored), filteredOut);
    s := Summary(total, passed, failed, ignored, filteredOut);
  }

  lemma EmptySum(suites: map<string, SuiteTally>)
    ensures forall d :: SumOver(d, [], suites) == 0
  {
  }

  lemma SumSnoc(keys: seq<string>, i: nat, suites: map<string, SuiteTally>)
    requires i < |keys|
    ensures forall d :: SumOver(d, keys[..i + 1], suites) == SumOver(d, keys[..i], suites) + Entry(d, suites, keys[i])
  {
    assert keys[..i + 1][..i] == keys[..i];
  }

  /** Adding with saturation to a clipped sum clips the sum. */
  lemma ClipAdd(a: nat, b: nat)
    ensures SaturatingAdd(Clip(a), b) == Clip(a + b)
    ensures Clip(0) == 0
  {
  }

  lemma ClipBoth(a: nat, b: nat)
    ensures SaturatingAdd(Clip(a), Clip(b)) == Clip(a + b)
  {
  }

  /** Nested saturating additions clip the exact sum once. */
  lemma ClipFour(p: nat, f: nat, g: nat, o: nat)
    ensures SaturatingAdd(SaturatingAdd(SaturatingAdd(Clip(p), Clip(f)), Clip(g)), Clip(o)) == Clip(p + f + g + o)
  {
    hide Clip;
    ClipBoth(p, f);
    ClipBoth(p + f, g);
    ClipBoth(p + f + g, o);
  }

  lemma TotalIsSum(suites: map<string, SuiteTally>, keys: seq<string>)
    requires keys == InOrder(StringLeq, suites.Keys)
    ensures forall d :: Total(d, suites) == SumOver(d, keys, suites)
  {
  }

  /** Parse a stream: tally suite summaries per binary, collect a record per
      named test event, sort the records, and sum the tallies. */
  method ParseNextest(events: seq<Event>) returns (r: Run)
    ensures r.records == SortBy(RecordKey, StringPairLeq, RawRecords(events))
    ensures r.summary == SummaryOf(Suites(events).0)
  {
    hide BuildRecord, BinaryKey, AnonymousKey, Total;
    var records: seq<Record> := [];
    var suites: map<string, SuiteTally> := map[];
    var noidentSeq := 0;
    for i := 0 to |events|
      invariant records == RawRecords(events[..i])
      invariant (suites, noidentSeq) == Suites(events[..i])
    {
      var e := events[i];
      assert events[..i + 1][..i] == events[..i];
      match e {
        case Suite(identity, _, _, _, _) =>
          var key;
          if identity.Some? {
            key := BinaryKey(identity.value);
          } else {
            key := AnonymousKey(noidentSeq);
            noidentSeq := (noidentSeq + 1) % U32_SIZE;
          }
          var tally := if key in suites then suites[key] else EMPTY_TALLY;
          suites := suites[key := tally.Fold(e)];
        case Test(_, name, _) =>
          if name.Some? {
            records := records + [BuildRecord(name.value, e)];
          }
        case Other =>
      }
    }
    assert events[..|events|] == events;
    var summary := SummarizeSuites(suites);
    r := Run(SortBy(RecordKey, StringPairLeq, records), summary);
  }
}
