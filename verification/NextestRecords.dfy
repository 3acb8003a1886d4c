/** What the parsed test records hold (`bundle/nextest.rs`): one for each named test
    event, with the parts of its name, its outcome and its output. */
module NextestRecords {
  import opened Ordering
  import opened Text
  import opened Nextest
  import opened NextestSummary
  import opened NextestIdentity
  import opened NextestReconcile
  import opened Wrappers

  /** The test events that carry a name, in stream order. */
  function NamedTests(events: seq<Event>): (r: seq<Event>)
    ensures forall e :: e in r <==> e in events && e.Test? && e.name.Some?
  {
    if events == [] then []
    else
      var rest, e := NamedTests(events[..|events| - 1]), events[|events| - 1];
      assert events == events[..|events| - 1] + [e];
      if e.Test? && e.name.Some? then rest + [e] else rest
  }

  /** The record tells the outcome of the event: passed, failed or ignored, and on
      failure the output, when there is any. */
  ghost predicate TellsOutcome(r: Record, e: Event)
    requires e.Test?
  {
    && r.harness == "libtest"
    && (r.passed <==> e.outcome == Ok) && (r.ignored <==> e.outcome == Ignored)
    && (forall text: string :: r.failureMessage == Some(text) <==> e.outcome == Failed && e.stdout == Some(text) && text != "")
  }

  /** `{crate}::{binary}${chain}::{test}`, where crate and chain may be missing. */
  function FullName(crate: Option<string>, binary: string, chain: Option<string>, test: string): string {
    Prefix(crate, binary) + "$" + TestPath(chain, test)
  }

  predicate CleanParts(crate: Option<string>, binary: string, test: string) {
    (crate.Some? ==> '$' !in crate.value) && '$' !in binary && ':' !in binary && ':' !in test
  }

  /** The record holds the parts of a name: the test, the package, the binary with
      dashes as underscores, and binary and chain joined as the module path. */
  ghost predicate HoldsParts(r: Record, crate: Option<string>, binary: string, chain: Option<string>, test: string) {
    && r.name == test
    && r.package == (if crate.Some? then crate.value else "")
    && r.binary == Underscored(binary)
    && r.modulePath == Joined(Underscored(binary), if chain.Some? then chain.value else "")
  }

  /** However the name is made up of parts, the record holds them. */
  ghost predicate TellsName(r: Record, name: string) {
    forall crate, binary, chain, test ::
      CleanParts(crate, binary, test) && name == FullName(crate, binary, chain, test) ==> HoldsParts(r, crate, binary, chain, test)
  }

  /** A name without `$` is all test path: the record has no package and no binary. */
  ghost predicate TellsPlainName(r: Record, name: string) {
    forall chain, test ::
      '$' !in name && ':' !in test && name == TestPath(chain, test) ==>
        r.name == test && r.package == "" && r.binary == "" && r.modulePath == (if chain.Some? then chain.value else "")
  }

  lemma BuiltPlainName(name: string, e: Event)
    requires e.Test?
    ensures TellsPlainName(BuildRecord(name, e), name)
  {
    hide ParseIdentity, TestPath;
    forall chain, test | '$' !in name && ':' !in test && name == TestPath(chain, test)
      ensures ParseIdentity(name) == TestIdentity("", "", if chain.Some? then chain.value else "", test)
    {
      UnqualifiedName(chain, test);
    }
  }

  lemma OutcomeTold(name: string, e: Event)
    requires e.Test?
    ensures TellsOutcome(BuildRecord(name, e), e)
  {
    hide ParseIdentity;
  }

  lemma BuiltName(name: string, e: Event)
    requires e.Test?
    ensures TellsName(BuildRecord(name, e), name)
  {
    hide HoldsParts, CleanParts, FullName, BuildRecord;
    forall crate, binary, chain, test | CleanParts(crate, binary, test) && name == FullName(crate, binary, chain, test)
      ensures HoldsParts(BuildRecord(name, e), crate, binary, chain, test)
    {
      BuiltParts(crate, binary, chain, test, e);
    }
  }

  lemma BuiltParts(crate: Option<string>, binary: string, chain: Option<string>, test: string, e: Event)
    requires e.Test? && CleanParts(crate, binary, test)
    ensures HoldsParts(BuildRecord(FullName(crate, binary, chain, test), e), crate, binary, chain, test)
  {
    hide ParseIdentity, Prefix, TestPath, Underscored, Joined;
    IdentityRoundTrip(crate, binary, chain, test);
  }

  lemma {:induction false} RawRecordsExactly(events: seq<Event>)
    ensures |RawRecords(events)| == |NamedTests(events)|
    ensures forall k :: 0 <= k < |RawRecords(events)| ==>
      TellsOutcome(RawRecords(events)[k], NamedTests(events)[k]) && TellsName(RawRecords(events)[k], NamedTests(events)[k].name.value)
      && TellsPlainName(RawRecords(events)[k], NamedTests(events)[k].name.value)
  {
    hide BuildRecord, TellsOutcome, TellsName, TellsPlainName;
    if events != [] {
      var rest, e := events[..|events| - 1], events[|events| - 1];
      RawRecordsExactly(rest);
      if e.Test? && e.name.Some? {
        OutcomeTold(e.name.value, e);
        BuiltName(e.name.value, e);
        BuiltPlainName(e.name.value, e);
      }
    }
  }

  /** Main result: the records of a parsed stream are those of its named test
      events, one each, sorted by module path and then name; records alike in both
      keep the order of their events. */
  lemma RecordsExactly(events: seq<Event>)
    ensures var rs, raw, tests := RunOf(events).records, RawRecords(events), NamedTests(events);
            && multiset(rs) == multiset(raw) && |raw| == |tests|
            && (forall k :: 0 <= k < |raw| ==>
                  && TellsOutcome(raw[k], tests[k])
                  && TellsName(raw[k], tests[k].name.value) && TellsPlainName(raw[k], tests[k].name.value))
            && (forall k :: WithKey(RecordKey, k, rs) == WithKey(RecordKey, k, raw))
    ensures var rs := RunOf(events).records;
            forall i, j :: 0 <= i < j < |rs| ==>
              StringLeq(rs[i].modulePath, rs[j].modulePath) && (rs[i].modulePath == rs[j].modulePath ==> StringLeq(rs[i].name, rs[j].name))
  {
    hide RawRecords, TellsOutcome, TellsName, TellsPlainName, NamedTests, StringLeq;
    var raw, rs := RawRecords(events), RunOf(events).records;
    StringPairOrder();
    StringOrder();
    SortByFacts(RecordKey, StringPairLeq, raw);
    RawRecordsExactly(events);
    forall k { SortByStable(RecordKey, StringPairLeq, raw, k); }
    forall i, j | 0 <= i < j < |rs|
      ensures StringLeq(rs[i].modulePath, rs[j].modulePath) && (rs[i].modulePath == rs[j].modulePath ==> StringLeq(rs[i].name, rs[j].name))
    {
      assert StringPairLeq(RecordKey(rs[i]), RecordKey(rs[j]));
    }
  }
}
