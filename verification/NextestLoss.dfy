/** What the cross-check sees when a capture is truncated or loses events. */
module NextestLoss {
  import opened Ordering
  import opened Nextest
  import opened NextestSummary
  import opened NextestReconcile
  import opened Wrappers

  // ------------------------------------------------ totals of a stream in two parts

  lemma {:induction false} TotalsConcat(a: seq<Event>, b: seq<Event>)
    ensures PassedTotal(a + b) == PassedTotal(a) + PassedTotal(b)
    ensures FailedTotal(a + b) == FailedTotal(a) + FailedTotal(b)
    ensures AnonymousCount(a + b) == AnonymousCount(a) + AnonymousCount(b)
  {
    hide PassedTotal, FailedTotal, AnonymousCount, AnonymousIgnored, AnonymousFiltered, Binaries;
    if b == [] {
      assert a + b == a;
      EmptyTotals();
    } else {
      var rest, e := b[..|b| - 1], b[|b| - 1];
      assert a + b == (a + rest) + [e] && b == rest + [e];
      TotalsConcat(a, rest);
      Snoc(a + rest, e);
      Snoc(rest, e);
    }
  }

  lemma IgnoredGrowsBy(a: seq<Event>, e: Event)
    ensures IgnoredTotal(a) <= IgnoredTotal(a + [e])
  {
    hide MaxIgnored, Binaries, SumMap, IgnoredMap, AnonymousIgnored, PassedTotal, FailedTotal, AnonymousCount, AnonymousFiltered;
    Snoc(a, e);
    if e.Suite? && e.identity.Some? {
      hide IgnoredTotal;
      NamedSums(a, e, e.identity.value);
      SnocPerBinary(a, e, e.identity.value);
    } else {
      SnocTotals(a, e);
    }
  }

  lemma {:induction false} IgnoredGrows(a: seq<Event>, b: seq<Event>)
    ensures IgnoredTotal(a) <= IgnoredTotal(a + b)
  {
    hide IgnoredTotal;
    if b == [] {
      assert a + b == a;
    } else {
      var rest, e := b[..|b| - 1], b[|b| - 1];
      assert a + b == (a + rest) + [e];
      IgnoredGrows(a, rest);
      IgnoredGrowsBy(a + rest, e);
    }
  }

  /** The totals of what is left, when `lost` is taken out of a stream. */
  lemma LeftTotals(stream: seq<Event>, rest: seq<Event>, lost: seq<Event>)
    requires multiset(stream) == multiset(rest + lost)
    ensures PassedTotal(stream) == PassedTotal(rest) + PassedTotal(lost)
    ensures FailedTotal(stream) == FailedTotal(rest) + FailedTotal(lost)
    ensures IgnoredTotal(rest) <= IgnoredTotal(stream) && AnonymousCount(rest) <= AnonymousCount(stream)
    ensures forall o :: NamedCount(o, stream) == NamedCount(o, rest) + NamedCount(o, lost)
    ensures ProperEvents(stream) ==> ProperEvents(rest)
  {
    hide PassedTotal, FailedTotal, AnonymousCount, IgnoredTotal, NamedCount, ExactSummary, Binaries;
    SameTotals(rest + lost, stream);
    TotalsOrderFree(rest + lost, stream);
    TotalsConcat(rest, lost);
    IgnoredGrows(rest, lost);
    forall o ensures NamedCount(o, stream) == NamedCount(o, rest) + NamedCount(o, lost) {
      NamedConcat(o, rest, lost);
    }
    PermutationElements(rest + lost, stream);
  }

  // ------------------------------------------------------------- any loss at all

  /** Main result: whatever a well-formed capture loses, test events, summaries or
      a whole tail, the cross-check compares what is left of either side; it stays
      silent if and only if the lost summaries account for exactly the lost tests,
      in every dimension. */
  lemma LossIsSeenExactly(rs: seq<BinaryRun>, skipped: seq<Event>, stream: seq<Event>, rest: seq<Event>, lost: seq<Event>)
    requires Captures(rs, skipped, stream) && multiset(stream) == multiset(rest + lost)
    ensures forall o :: NamedCount(o, lost) <= NamedCount(o, stream)
    ensures PassedTotal(lost) <= NamedCount(Ok, stream) && FailedTotal(lost) <= NamedCount(Failed, stream)
    ensures IgnoredTotal(rest) <= IgnoredTotal(stream) == NamedCount(Ignored, stream)
    ensures Discrepancies(RunOf(rest)) ==
      Check("passed", NamedCount(Ok, stream) - PassedTotal(lost), NamedCount(Ok, stream) - NamedCount(Ok, lost))
      + Check("failed", NamedCount(Failed, stream) - FailedTotal(lost), NamedCount(Failed, stream) - NamedCount(Failed, lost))
      + Check("ignored", IgnoredTotal(rest), NamedCount(Ignored, stream) - NamedCount(Ignored, lost))
    ensures Discrepancies(RunOf(rest)) == [] <==>
      && PassedTotal(lost) == NamedCount(Ok, lost)
      && FailedTotal(lost) == NamedCount(Failed, lost)
      && IgnoredTotal(stream) - IgnoredTotal(rest) == NamedCount(Ignored, lost)
  {
    hide PassedTotal, FailedTotal, AnonymousCount, IgnoredTotal, NamedCount, Captures, RunOf, Discrepancies, Clip,
      Wrapping, ProperEvents;
    EmittedStream(rs, skipped, stream);
    LeftTotals(stream, rest, lost);
    DiscrepanciesOf(rest);
    InRange(PassedTotal(rest));
    InRange(FailedTotal(rest));
    InRange(IgnoredTotal(rest));
    forall o ensures Wrapping(NamedCount(o, rest)) == NamedCount(o, rest) {
      InRange(NamedCount(o, rest));
    }
  }

  lemma InRange(n: nat)
    requires n <= U32_MAX
    ensures Clip(n) == n && Wrapping(n) == n
  {
  }

  // --------------------------------------------------------------- lost test events

  function DimensionName(o: Outcome): string {
    match o case Ok => "passed" case Failed => "failed" case Ignored => "ignored"
  }

  /** What the cross-check reports when `n` test events of an outcome were run and
      `k` of them were lost. */
  function Shortfall(o: Outcome, n: nat, k: nat): seq<Discrepancy>
    requires k <= n
  {
    if k == 0 then [] else [Discrepancy(DimensionName(o), n, n - k)]
  }

  lemma {:induction false} TestsCounted(events: seq<Event>)
    requires events != [] && forall e :: e in events ==> e.Test? && e.name.Some?
    ensures NamedCount(Ok, events) + NamedCount(Failed, events) + NamedCount(Ignored, events) == |events|
  {
    var rest, e := events[..|events| - 1], events[|events| - 1];
    assert events == rest + [e] && e in events;
    if rest != [] {
      assert forall x :: x in rest ==> x in events;
      TestsCounted(rest);
    } else {
      EmptyTotals();
    }
    NamedSnoc(Ok, rest, e);
    NamedSnoc(Failed, rest, e);
    NamedSnoc(Ignored, rest, e);
  }

  /** Test events carry no summary counts. */
  lemma NoSummariesLost(stream: seq<Event>, rest: seq<Event>, lost: seq<Event>)
    requires multiset(stream) == multiset(rest + lost) && forall e :: e in lost ==> !e.Suite?
    ensures PassedTotal(lost) == 0 && FailedTotal(lost) == 0 && IgnoredTotal(rest) == IgnoredTotal(stream)
  {
    hide PassedTotal, FailedTotal, AnonymousCount, IgnoredTotal, Binaries, MaxIgnored, IgnoredMap;
    TestsKeepTotals(rest, lost);
    SameTotals(rest + lost, stream);
    TotalsConcat(rest, lost);
  }

  /** Main result: losing any test events of a well-formed capture is seen. Each
      dimension differs by the number of events lost there, so one that lost
      nothing is silent, and a loss anywhere leaves a discrepancy. */
  lemma LostTestsAreSeen(rs: seq<BinaryRun>, skipped: seq<Event>, stream: seq<Event>, rest: seq<Event>, lost: seq<Event>)
    requires Captures(rs, skipped, stream) && multiset(stream) == multiset(rest + lost)
    requires forall e :: e in lost ==> e.Test? && e.name.Some?
    ensures forall o :: NamedCount(o, lost) <= NamedCount(o, stream)
    ensures Discrepancies(RunOf(rest)) ==
      Shortfall(Ok, NamedCount(Ok, stream), NamedCount(Ok, lost))
      + Shortfall(Failed, NamedCount(Failed, stream), NamedCount(Failed, lost))
      + Shortfall(Ignored, NamedCount(Ignored, stream), NamedCount(Ignored, lost))
    ensures lost != [] ==> Discrepancies(RunOf(rest)) != []
  {
    hide PassedTotal, FailedTotal, AnonymousCount, IgnoredTotal, NamedCount, Captures, RunOf, Discrepancies;
    LossIsSeenExactly(rs, skipped, stream, rest, lost);
    NoSummariesLost(stream, rest, lost);
    if lost != [] {
      TestsCounted(lost);
    }
  }

  lemma OneLost(stream: seq<Event>, i: nat)
    requires i < |stream|
    ensures multiset(stream) == multiset(Without(stream, i) + [stream[i]])
  {
    hide Without;
    WithoutMultiset(stream, i);
  }

  /** Main result: losing any single test event of a well-formed capture leaves
      exactly one discrepancy, in the dimension of that event. */
  lemma LostTestIsSeen(rs: seq<BinaryRun>, skipped: seq<Event>, stream: seq<Event>, i: nat, o: Outcome)
    requires Captures(rs, skipped, stream)
    requires i < |stream| && Named(o, stream[i])
    ensures
      var n := NamedCount(o, stream);
      n > 0 && Discrepancies(RunOf(Without(stream, i))) == [Discrepancy(DimensionName(o), n, n - 1)]
  {
    hide Captures, RunOf, Discrepancies, Without, NamedCount;
    var e := stream[i];
    OneLost(stream, i);
    LostTestsAreSeen(rs, skipped, stream, Without(stream, i), [e]);
    forall p ensures NamedCount(p, [e]) == if p == o then 1 else 0 {
      EmptyTotals();
      assert [] + [e] == [e];
      NamedSnoc(p, [], e);
    }
  }

  // --------------------------------------------------------------- a lost summary

  /** What the cross-check reports when summaries lack `k` of `n` tests. */
  function Excess(o: Outcome, n: nat, k: nat): seq<Discrepancy>
    requires k <= n
  {
    if k == 0 then [] else [Discrepancy(DimensionName(o), n - k, n)]
  }

  /** `e` alone carries the largest ignored count of its binary. */
  ghost predicate OnlyFullReport(rest: seq<Event>, b: Binary, e: Event)
    requires e.Suite?
  {
    Count(e.ignored) > 0 && forall x :: x in rest && SuiteOf(x, b) ==> Count(x.ignored) < Count(e.ignored)
  }

  lemma {:induction false} LargestBelow(events: seq<Event>, b: Binary, n: nat)
    ensures MaxIgnored(events, b) < n <==> n > 0 && forall x :: x in events && SuiteOf(x, b) ==> Count(x.ignored) < n
  {
    if events != [] {
      var rest, e := events[..|events| - 1], events[|events| - 1];
      assert events == rest + [e];
      LargestBelow(rest, b, n);
      SnocPerBinary(rest, e, b);
      hide MaxIgnored, Count;
    }
  }

  lemma OneSummary(e: Event)
    requires e.Suite?
    ensures PassedTotal([e]) == Count(e.passed) && FailedTotal([e]) == Count(e.failed)
    ensures forall o :: NamedCount(o, [e]) == 0
  {
    hide Count;
    assert [] + [e] == [e];
    Snoc([], e);
    forall o ensures NamedCount(o, [e]) == 0 {
      NamedSnoc(o, [], e);
    }
  }

  lemma SummaryLoss(stream: seq<Event>, rest: seq<Event>, b: Binary, e: Event)
    requires multiset(stream) == multiset(rest + [e]) && SuiteOf(e, b)
    ensures MaxIgnored(stream, b) == Max(MaxIgnored(rest, b), Count(e.ignored))
    ensures IgnoredTotal(stream) - IgnoredTotal(rest) == MaxIgnored(stream, b) - MaxIgnored(rest, b)
  {
    hide PassedTotal, FailedTotal, IgnoredTotal, MaxIgnored, Count;
    SameTotals(rest + [e], stream);
    ReportsOrderFree(rest + [e], stream, b);
    SnocPerBinary(rest, e, b);
    NamedSums(rest, e, b);
  }

  /** Main result: losing one group's summary is seen in `passed` and `failed` by
      the counts it carried, and in `ignored` by what no other group of its binary
      reports. The last is nothing unless that summary alone carried the
      binary's full ignored count, and some test was ignored. */
  lemma LostSummaryIsSeen(rs: seq<BinaryRun>, skipped: seq<Event>, stream: seq<Event>, i: nat, b: Binary)
    requires Captures(rs, skipped, stream) && i < |stream| && SuiteOf(stream[i], b)
    ensures
      var e, rest := stream[i], Without(stream, i);
      var passed, failed, ignored := NamedCount(Ok, stream), NamedCount(Failed, stream), NamedCount(Ignored, stream);
      var unreported := MaxIgnored(stream, b) - MaxIgnored(rest, b);
      && Count(e.passed) <= passed && Count(e.failed) <= failed && 0 <= unreported <= ignored
      && Discrepancies(RunOf(rest)) ==
           Excess(Ok, passed, Count(e.passed)) + Excess(Failed, failed, Count(e.failed)) + Excess(Ignored, ignored, unreported)
      && (unreported > 0 <==> OnlyFullReport(rest, b, e))
  {
    hide PassedTotal, FailedTotal, IgnoredTotal, MaxIgnored, NamedCount, Captures, RunOf, Discrepancies, Without, Count;
    var e, rest := stream[i], Without(stream, i);
    OneLost(stream, i);
    LossIsSeenExactly(rs, skipped, stream, rest, [e]);
    OneSummary(e);
    SummaryLoss(stream, rest, b, e);
    LargestBelow(rest, b, Count(e.ignored));
  }
}
