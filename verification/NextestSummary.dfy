/** What the suite summary means: the exact totals of the stream, clipped once. */
module NextestSummary {
  import opened Ordering
  import opened Text
  import opened Nextest
  import opened Wrappers

  // ------------------------------------------------------------- sums over maps

  ghost function SumMap<K(!new)>(m: map<K, nat>): nat {
    if m == map[] then 0 else var k :| k in m; m[k] + SumMap(m - {k})
  }

  lemma {:induction false} SumMapRemove<K(!new)>(m: map<K, nat>, k: K)
    requires k in m
    ensures SumMap(m) == m[k] + SumMap(m - {k})
    decreases |m|
  {
    var j :| j in m && SumMap(m) == m[j] + SumMap(m - {j});
    if j != k {
      SumMapRemove(m - {j}, k);
      SumMapRemove(m - {k}, j);
      assert m - {j} - {k} == m - {k} - {j};
    }
  }

  lemma SumMapUpdate<K(!new)>(m: map<K, nat>, k: K, v: nat)
    ensures SumMap(m[k := v]) == SumMap(m) - (if k in m then m[k] else 0) + v
    ensures k in m ==> m[k] <= SumMap(m)
  {
    SumMapRemove(m[k := v], k);
    if k in m {
      SumMapRemove(m, k);
      assert m[k := v] - {k} == m - {k};
    } else {
      assert m[k := v] - {k} == m;
    }
  }

  lemma EmptySumMap<K(!new)>()
    ensures SumMap<K>(map[]) == 0
  {
  }

  lemma SetSnoc<K(!new)>(rest: seq<K>, last: K)
    ensures (set k | k in rest + [last]) == (set k | k in rest) + {last}
  {
  }

  ghost function Column(d: Dimension, keys: set<string>, suites: map<string, SuiteTally>): map<string, nat> {
    map k | k in keys :: Entry(d, suites, k)
  }

  lemma ColumnSnoc(d: Dimension, rest: set<string>, last: string, suites: map<string, SuiteTally>)
    requires last !in rest
    ensures SumMap(Column(d, rest + {last}, suites)) == SumMap(Column(d, rest, suites)) + Entry(d, suites, last)
  {
    hide Entry, SumMap;
    var all := Column(d, rest + {last}, suites);
    assert all - {last} == Column(d, rest, suites);
    SumMapRemove(all, last);
  }

  lemma {:induction false} SumOverIsSumMap(d: Dimension, keys: seq<string>, suites: map<string, SuiteTally>)
    requires forall i, j :: 0 <= i < j < |keys| ==> keys[i] != keys[j]
    ensures SumOver(d, keys, suites) == SumMap(Column(d, (set k | k in keys), suites))
  {
    hide Entry, SumMap, Column;
    if keys == [] {
      EmptyColumn(d, suites);
    } else {
      var rest, last := keys[..|keys| - 1], keys[|keys| - 1];
      SumOverIsSumMap(d, rest, suites);
      assert keys == rest + [last];
      SetSnoc(rest, last);
      assert last !in rest;
      ColumnSnoc(d, (set k | k in rest), last, suites);
    }
  }

  lemma EmptyColumn(d: Dimension, suites: map<string, SuiteTally>)
    ensures SumMap(Column(d, (set k | k in []), suites)) == 0
  {
    assert Column(d, (set k | k in []), suites) == map[];
    EmptySumMap<string>();
  }

  lemma TotalIsSumMap(d: Dimension, suites: map<string, SuiteTally>)
    ensures Total(d, suites) == SumMap(Column(d, suites.Keys, suites))
  {
    StringOrder();
    InOrderFacts(StringLeq, suites.Keys);
    hide StringLeq, InOrder;
    var keys := InOrder(StringLeq, suites.Keys);
    SumOverIsSumMap(d, keys, suites);
    assert (set k | k in keys) == suites.Keys;
  }

  lemma TotalUpdate(d: Dimension, suites: map<string, SuiteTally>, k: string, t: SuiteTally)
    ensures Total(d, suites[k := t]) == Total(d, suites) - Entry(d, suites, k) + DimensionOf(d, t)
    ensures Entry(d, suites, k) <= Total(d, suites)
  {
    hide Total, SumMap, DimensionOf;
    TotalIsSumMap(d, suites);
    TotalIsSumMap(d, suites[k := t]);
    var column := Column(d, suites.Keys, suites);
    SumMapUpdate(column, k, DimensionOf(d, t));
    assert Column(d, suites[k := t].Keys, suites[k := t]) == column[k := DimensionOf(d, t)];
  }

  // ------------------------------------------------------- the stream's totals

  predicate SuiteOf(e: Event, b: Binary) { e.Suite? && e.identity == Some(b) }

  predicate Anonymous(e: Event) { e.Suite? && e.identity.None? }

  function AddPassed(t: nat, e: Event): nat { if e.Suite? then t + Count(e.passed) else t }

  function AddFailed(t: nat, e: Event): nat { if e.Suite? then t + Count(e.failed) else t }

  function AddAnonymous(t: nat, e: Event): nat { if Anonymous(e) then t + 1 else t }

  function AddAnonymousIgnored(t: nat, e: Event): nat { if Anonymous(e) then t + Count(e.ignored) else t }

  function AddAnonymousFiltered(t: nat, e: Event): nat { if Anonymous(e) then t + Count(e.filteredOut) else t }

  function AddBinary(s: set<Binary>, e: Event): set<Binary> {
    if e.Suite? && e.identity.Some? then s + {e.identity.value} else s
  }

  function IgnoredStep(b: Binary): (nat, Event) -> nat {
    (m: nat, e: Event) => if SuiteOf(e, b) then Max(m, Count(e.ignored)) else m
  }

  function FilteredStep(b: Binary): (Option<nat>, Event) -> Option<nat> {
    (m: Option<nat>, e: Event) =>
      if !SuiteOf(e, b) then m
      else if m.None? then Some(Count(e.filteredOut))
      else Some(Min(m.value, Count(e.filteredOut)))
  }

  function PassedTotal(events: seq<Event>): nat { FoldLeft(AddPassed, 0, events) }

  function FailedTotal(events: seq<Event>): nat { FoldLeft(AddFailed, 0, events) }

  function AnonymousCount(events: seq<Event>): nat { FoldLeft(AddAnonymous, 0, events) }

  function AnonymousIgnored(events: seq<Event>): nat { FoldLeft(AddAnonymousIgnored, 0, events) }

  function AnonymousFiltered(events: seq<Event>): nat { FoldLeft(AddAnonymousFiltered, 0, events) }

  /** The binaries that report at least one summary. */
  function Binaries(events: seq<Event>): set<Binary> { FoldLeft(AddBinary, {}, events) }

  /** The largest ignored count any partition of `b` reports. */
  function MaxIgnored(events: seq<Event>, b: Binary): nat { FoldLeft(IgnoredStep(b), 0, events) }

  /** The smallest filtered-out count any partition of `b` reports. */
  function MinFiltered(events: seq<Event>, b: Binary): Option<nat> { FoldLeft(FilteredStep(b), None, events) }

  function OrZero(o: Option<nat>): nat { if o.Some? then o.value else 0 }

  function PassedStep(b: Binary): (nat, Event) -> nat {
    (t: nat, e: Event) => if SuiteOf(e, b) then t + Count(e.passed) else t
  }

  function FailedStep(b: Binary): (nat, Event) -> nat {
    (t: nat, e: Event) => if SuiteOf(e, b) then t + Count(e.failed) else t
  }

  /** What the summaries of `b` report as passed, all together. */
  function PassedOf(events: seq<Event>, b: Binary): nat { FoldLeft(PassedStep(b), 0, events) }

  function FailedOf(events: seq<Event>, b: Binary): nat { FoldLeft(FailedStep(b), 0, events) }

  function IgnoredMap(events: seq<Event>): map<Binary, nat> {
    map b | b in Binaries(events) :: MaxIgnored(events, b)
  }

  function FilteredMap(events: seq<Event>): map<Binary, nat> {
    map b | b in Binaries(events) :: OrZero(MinFiltered(events, b))
  }

  ghost function IgnoredTotal(events: seq<Event>): nat { SumMap(IgnoredMap(events)) + AnonymousIgnored(events) }

  ghost function FilteredTotal(events: seq<Event>): nat { SumMap(FilteredMap(events)) + AnonymousFiltered(events) }

  /** The summary without any overflow until the very end. */
  ghost function ExactSummary(events: seq<Event>): Summary {
    ClippedSummary(PassedTotal(events), FailedTotal(events), IgnoredTotal(events), FilteredTotal(events))
  }

  // ---------------------------------------------------------- one more event

  lemma Snoc(events: seq<Event>, e: Event)
    ensures PassedTotal(events + [e]) == AddPassed(PassedTotal(events), e)
    ensures FailedTotal(events + [e]) == AddFailed(FailedTotal(events), e)
    ensures AnonymousCount(events + [e]) == AddAnonymous(AnonymousCount(events), e)
    ensures AnonymousIgnored(events + [e]) == AddAnonymousIgnored(AnonymousIgnored(events), e)
    ensures AnonymousFiltered(events + [e]) == AddAnonymousFiltered(AnonymousFiltered(events), e)
    ensures Binaries(events + [e]) == AddBinary(Binaries(events), e)
  {
    FoldAppend(AddPassed, 0, events, [e]);
    FoldAppend(AddFailed, 0, events, [e]);
    FoldAppend(AddAnonymous, 0, events, [e]);
    FoldAppend(AddAnonymousIgnored, 0, events, [e]);
    FoldAppend(AddAnonymousFiltered, 0, events, [e]);
    FoldAppend(AddBinary, {}, events, [e]);
  }

  lemma SnocPerBinary(events: seq<Event>, e: Event, b: Binary)
    ensures MaxIgnored(events + [e], b) == IgnoredStep(b)(MaxIgnored(events, b), e)
    ensures MinFiltered(events + [e], b) == FilteredStep(b)(MinFiltered(events, b), e)
  {
    FoldAppend(IgnoredStep(b), 0, events, [e]);
    FoldAppend(FilteredStep(b), None, events, [e]);
  }

  lemma SnocCounted(events: seq<Event>, e: Event, b: Binary)
    ensures PassedOf(events + [e], b) == PassedStep(b)(PassedOf(events, b), e)
    ensures FailedOf(events + [e], b) == FailedStep(b)(FailedOf(events, b), e)
  {
    FoldAppend(PassedStep(b), 0, events, [e]);
    FoldAppend(FailedStep(b), 0, events, [e]);
  }

  lemma {:induction false} UncountedBinary(events: seq<Event>, b: Binary)
    requires b !in Binaries(events)
    ensures PassedOf(events, b) == 0 && FailedOf(events, b) == 0
  {
    if events != [] {
      var rest, e := events[..|events| - 1], events[|events| - 1];
      assert events == rest + [e];
      SnocBinaries(rest, e);
      SnocCounted(rest, e, b);
      UncountedBinary(rest, b);
    }
  }

  lemma {:induction false} UnreportedBinary(events: seq<Event>, b: Binary)
    requires b !in Binaries(events)
    ensures MaxIgnored(events, b) == 0 && MinFiltered(events, b) == None
  {
    if events != [] {
      var rest, e := events[..|events| - 1], events[|events| - 1];
      assert events == rest + [e];
      Snoc(rest, e);
      SnocPerBinary(rest, e, b);
      UnreportedBinary(rest, b);
    }
  }

  lemma SnocBinaries(events: seq<Event>, e: Event)
    ensures Binaries(events + [e]) == AddBinary(Binaries(events), e)
  {
    FoldAppend(AddBinary, {}, events, [e]);
  }

  lemma SnocTotals(events: seq<Event>, e: Event)
    ensures !e.Suite? || e.identity.None? ==>
      IgnoredMap(events + [e]) == IgnoredMap(events) && FilteredMap(events + [e]) == FilteredMap(events)
    ensures e.Suite? && e.identity.Some? ==>
      var b := e.identity.value;
      && IgnoredMap(events + [e]) == IgnoredMap(events)[b := MaxIgnored(events + [e], b)]
      && FilteredMap(events + [e]) == FilteredMap(events)[b := OrZero(MinFiltered(events + [e], b))]
  {
    hide MaxIgnored, MinFiltered, Binaries;
    SnocBinaries(events, e);
    forall b: Binary
      ensures MaxIgnored(events + [e], b) == IgnoredStep(b)(MaxIgnored(events, b), e)
      ensures MinFiltered(events + [e], b) == FilteredStep(b)(MinFiltered(events, b), e)
    {
      SnocPerBinary(events, e, b);
    }
    if e.Suite? && e.identity.Some? {
      var b := e.identity.value;
      assert IgnoredMap(events + [e]) == IgnoredMap(events)[b := MaxIgnored(events + [e], b)];
      assert FilteredMap(events + [e]) == FilteredMap(events)[b := OrZero(MinFiltered(events + [e], b))];
    } else {
      assert IgnoredMap(events + [e]) == IgnoredMap(events);
      assert FilteredMap(events + [e]) == FilteredMap(events);
    }
  }

  // ------------------------------------------------- what one more summary adds

  /** What a count field says: a number that fits 32 bits, and otherwise nothing. */
  function Said(c: Option<nat>): nat {
    match c case Some(n) => if n < 0x1_0000_0000 then n else 0 case None => 0
  }

  /** One more summary adds its passed and failed counts, whoever reports it. A named
      binary's ignored total is the largest number it reported, its filtered-out total
      the smallest. */
  lemma SummaryAdds(events: seq<Event>, e: Event)
    requires e.Suite?
    ensures PassedTotal(events + [e]) == PassedTotal(events) + Said(e.passed)
    ensures FailedTotal(events + [e]) == FailedTotal(events) + Said(e.failed)
    ensures e.identity.None? ==> AnonymousIgnored(events + [e]) == AnonymousIgnored(events) + Said(e.ignored)
    ensures e.identity.None? ==> AnonymousFiltered(events + [e]) == AnonymousFiltered(events) + Said(e.filteredOut)
  {
    Snoc(events, e);
  }

  /** `MaxIgnored` is the largest report of the binary, or nothing. */
  lemma {:induction false} MaxIgnoredExactly(events: seq<Event>, b: Binary)
    ensures forall e :: e in events && e.Suite? && e.identity == Some(b) ==> Said(e.ignored) <= MaxIgnored(events, b)
    ensures MaxIgnored(events, b) == 0 || exists e :: e in events && e.Suite? && e.identity == Some(b) && Said(e.ignored) == MaxIgnored(events, b)
  {
    if events != [] {
      var rest, e := events[..|events| - 1], events[|events| - 1];
      assert events == rest + [e];
      MaxIgnoredExactly(rest, b);
      SnocPerBinary(rest, e, b);
      hide MaxIgnored;
      assert e in events;
    }
  }

  /** `MinFiltered` is the smallest report of the binary, if it has any. */
  lemma {:induction false} MinFilteredExactly(events: seq<Event>, b: Binary)
    ensures forall e :: e in events && e.Suite? && e.identity == Some(b) ==> MinFiltered(events, b).Some? && MinFiltered(events, b).value <= Said(e.filteredOut)
    ensures MinFiltered(events, b).Some? ==>
      exists e :: e in events && e.Suite? && e.identity == Some(b) && Said(e.filteredOut) == MinFiltered(events, b).value
  {
    if events != [] {
      var rest, e := events[..|events| - 1], events[|events| - 1];
      assert events == rest + [e];
      MinFilteredExactly(rest, b);
      SnocPerBinary(rest, e, b);
      hide MinFiltered;
      assert e in events;
    }
  }

  // ------------------------------------------------------------- the suite keys

  /** What keeps keys apart: no NUL in the first two fields, and a crate name. */
  predicate Proper(b: Binary) { b.crate != "" && '\0' !in b.crate && '\0' !in b.testBinary }

  lemma CutAtNul(a: string, x: string, b: string, y: string)
    requires '\0' !in a && '\0' !in b && a + "\0" + x == b + "\0" + y
    ensures a == b && x == y
  {
    SplitOnceExact(a, '\0', x);
    SplitOnceExact(b, '\0', y);
  }

  lemma BinaryKeyInjective(a: Binary, b: Binary)
    requires Proper(a) && Proper(b) && BinaryKey(a) == BinaryKey(b)
    ensures a == b
  {
    var x, y := a.testBinary + "\0" + a.kind, b.testBinary + "\0" + b.kind;
    assert BinaryKey(a) == a.crate + "\0" + x && BinaryKey(b) == b.crate + "\0" + y;
    CutAtNul(a.crate, x, b.crate, y);
    CutAtNul(a.testBinary, a.kind, b.testBinary, b.kind);
  }

  lemma KeysApart(b: Binary, n: nat)
    requires Proper(b)
    ensures BinaryKey(b) != AnonymousKey(n)
  {
    assert BinaryKey(b)[0] == b.crate[0] && AnonymousKey(n)[0] == '\0';
  }

  lemma AnonymousKeyInjective(m: nat, n: nat)
    requires AnonymousKey(m) == AnonymousKey(n)
    ensures m == n
  {
    hide Dec;
    assert AnonymousKey(m)[|"\0noident\0"|..] == Dec(m);
    assert AnonymousKey(n)[|"\0noident\0"|..] == Dec(n);
    DecValue(m);
    DecValue(n);
  }

  // ------------------------------------------------------------ the main invariant

  /** `t` is the exact total, or both are past the limit. */
  predicate Agree(t: nat, exact: nat) { t <= exact && Clip(t) == Clip(exact) }

  lemma AgreeStep(t: nat, exact: nat, before: nat, c: nat)
    requires Agree(t, exact) && before <= t
    ensures Agree(t - before + SaturatingAdd(before, c), exact + c)
  {
  }

  lemma AgreeSum(a: nat, exactA: nat, b: nat, exactB: nat)
    requires Agree(a, exactA) && Agree(b, exactB)
    ensures Agree(a + b, exactA + exactB)
  {
  }

  ghost predicate ProperEvents(events: seq<Event>) {
    forall e :: e in events && e.Suite? && e.identity.Some? ==> Proper(e.identity.value)
  }

  /** Every proper binary has exactly its own tally, and no key is reused. */
  ghost predicate KeysMatch(events: seq<Event>, suites: map<string, SuiteTally>) {
    && (forall b :: Proper(b) ==> (BinaryKey(b) in suites <==> b in Binaries(events)))
    && (forall b :: Proper(b) && b in Binaries(events) ==>
          && suites[BinaryKey(b)].ignored == MaxIgnored(events, b)
          && suites[BinaryKey(b)].filteredOut == MinFiltered(events, b))
    && (forall j: nat :: AnonymousKey(j) in suites ==> j < AnonymousCount(events))
  }

  /** The tally of every proper binary carries its own sums, clipped. */
  ghost predicate CountsMatch(events: seq<Event>, suites: map<string, SuiteTally>) {
    forall b :: Proper(b) && b in Binaries(events) && BinaryKey(b) in suites ==>
      && suites[BinaryKey(b)].passed == Clip(PassedOf(events, b))
      && suites[BinaryKey(b)].failed == Clip(FailedOf(events, b))
  }

  ghost predicate TotalsMatch(events: seq<Event>, suites: map<string, SuiteTally>) {
    && Agree(Total(PassedDim, suites), PassedTotal(events))
    && Agree(Total(FailedDim, suites), FailedTotal(events))
    && Total(IgnoredDim, suites) == IgnoredTotal(events)
    && Total(FilteredDim, suites) == FilteredTotal(events)
  }

  /** A summary of a named binary. */
  lemma NamedStep(events: seq<Event>, e: Event, suites: map<string, SuiteTally>)
    requires e.Suite? && e.identity.Some? && Proper(e.identity.value)
    requires KeysMatch(events, suites)
    ensures
      var key := BinaryKey(e.identity.value);
      var tally := if key in suites then suites[key] else EMPTY_TALLY;
      KeysMatch(events + [e], suites[key := tally.Fold(e)])
  {
    var b := e.identity.value;
    Snoc(events, e);
    forall c: Binary
      ensures MaxIgnored(events + [e], c) == IgnoredStep(c)(MaxIgnored(events, c), e)
      ensures MinFiltered(events + [e], c) == FilteredStep(c)(MinFiltered(events, c), e)
    {
      SnocPerBinary(events, e, c);
    }
    if b !in Binaries(events) {
      UnreportedBinary(events, b);
    }
    hide MaxIgnored, MinFiltered, Binaries, BinaryKey, AnonymousKey, AnonymousCount, Proper;
    forall c | Proper(c) && BinaryKey(c) == BinaryKey(b) ensures c == b {
      BinaryKeyInjective(c, b);
    }
    forall j: nat ensures AnonymousKey(j) != BinaryKey(b) {
      KeysApart(b, j);
    }
  }

  lemma NamedCounts(events: seq<Event>, e: Event, suites: map<string, SuiteTally>)
    requires e.Suite? && e.identity.Some? && Proper(e.identity.value)
    requires KeysMatch(events, suites) && CountsMatch(events, suites)
    ensures
      var key := BinaryKey(e.identity.value);
      CountsMatch(events + [e], suites[key := TallyAt(suites, key).Fold(e)])
  {
    hide MaxIgnored, MinFiltered, PassedOf, FailedOf, Binaries, BinaryKey, AnonymousKey, AnonymousCount, Proper, Clip, SaturatingAdd;
    var b := e.identity.value;
    SnocBinaries(events, e);
    if b !in Binaries(events) {
      UncountedBinary(events, b);
    }
    ClipAdd(PassedOf(events, b), Count(e.passed));
    ClipAdd(FailedOf(events, b), Count(e.failed));
    forall c ensures PassedOf(events + [e], c) == PassedStep(c)(PassedOf(events, c), e) && FailedOf(events + [e], c) == FailedStep(c)(FailedOf(events, c), e) {
      SnocCounted(events, e, c);
    }
    forall c | Proper(c) && BinaryKey(c) == BinaryKey(b) ensures c == b {
      BinaryKeyInjective(c, b);
    }
  }

  /** Any other event leaves the per-binary sums as they were. */
  lemma OtherCounts(events: seq<Event>, e: Event, suites: map<string, SuiteTally>, key: string, tally: SuiteTally)
    requires !(e.Suite? && e.identity.Some?) && CountsMatch(events, suites)
    requires forall b :: Proper(b) ==> BinaryKey(b) != key
    ensures CountsMatch(events + [e], suites) && CountsMatch(events + [e], suites[key := tally])
  {
    hide PassedOf, FailedOf, Binaries, BinaryKey, Proper, Clip;
    SnocBinaries(events, e);
    forall c ensures PassedOf(events + [e], c) == PassedOf(events, c) && FailedOf(events + [e], c) == FailedOf(events, c) {
      SnocCounted(events, e, c);
    }
  }

  /** A summary without identity gets a key of its own. */
  lemma AnonymousStep(events: seq<Event>, e: Event, suites: map<string, SuiteTally>, n: nat)
    requires Anonymous(e) && n == AnonymousCount(events)
    requires KeysMatch(events, suites)
    ensures AnonymousKey(n) !in suites
    ensures KeysMatch(events + [e], suites[AnonymousKey(n) := EMPTY_TALLY.Fold(e)])
  {
    Snoc(events, e);
    forall c: Binary
      ensures MaxIgnored(events + [e], c) == MaxIgnored(events, c)
      ensures MinFiltered(events + [e], c) == MinFiltered(events, c)
    {
      SnocPerBinary(events, e, c);
    }
    hide MaxIgnored, MinFiltered, Binaries, BinaryKey, AnonymousKey, AnonymousCount, Proper;
    forall c | Proper(c) ensures BinaryKey(c) != AnonymousKey(n) {
      KeysApart(c, n);
    }
    forall j: nat | AnonymousKey(j) == AnonymousKey(n) ensures j == n {
      AnonymousKeyInjective(j, n);
    }
  }

  /** The tally a summary is folded into. */
  function TallyAt(suites: map<string, SuiteTally>, key: string): SuiteTally {
    if key in suites then suites[key] else EMPTY_TALLY
  }

  lemma FoldedTotals(suites: map<string, SuiteTally>, key: string, e: Event, d: Dimension)
    requires e.Suite?
    ensures
      var tally := TallyAt(suites, key);
      && Total(d, suites[key := tally.Fold(e)]) == Total(d, suites) - DimensionOf(d, tally) + DimensionOf(d, tally.Fold(e))
      && DimensionOf(d, tally) <= Total(d, suites)
  {
    TotalUpdate(d, suites, key, TallyAt(suites, key).Fold(e));
  }

  /** Passed and failed accumulate in the same way for every key. */
  lemma CountedTotals(events: seq<Event>, e: Event, suites: map<string, SuiteTally>, key: string)
    requires e.Suite? && TotalsMatch(events, suites)
    ensures
      var suites' := suites[key := TallyAt(suites, key).Fold(e)];
      && Agree(Total(PassedDim, suites'), PassedTotal(events + [e]))
      && Agree(Total(FailedDim, suites'), FailedTotal(events + [e]))
  {
    Snoc(events, e);
    hide Total, PassedTotal, FailedTotal, Agree, IgnoredTotal, FilteredTotal;
    FoldedTotals(suites, key, e, PassedDim);
    FoldedTotals(suites, key, e, FailedDim);
    var tally := TallyAt(suites, key);
    AgreeStep(Total(PassedDim, suites), PassedTotal(events), tally.passed, Count(e.passed));
    AgreeStep(Total(FailedDim, suites), FailedTotal(events), tally.failed, Count(e.failed));
  }

  /** How one more summary of `b` moves the two per-binary sums. */
  lemma NamedSums(events: seq<Event>, e: Event, b: Binary)
    requires SuiteOf(e, b)
    ensures IgnoredTotal(events + [e]) == IgnoredTotal(events) - MaxIgnored(events, b) + MaxIgnored(events + [e], b)
    ensures FilteredTotal(events + [e])
         == FilteredTotal(events) - OrZero(MinFiltered(events, b)) + OrZero(MinFiltered(events + [e], b))
  {
    Snoc(events, e);
    SnocTotals(events, e);
    if b !in Binaries(events) {
      UnreportedBinary(events, b);
    }
    hide SumMap, AnonymousIgnored, AnonymousFiltered, MaxIgnored, MinFiltered, Binaries;
    SumMapUpdate(IgnoredMap(events), b, MaxIgnored(events + [e], b));
    SumMapUpdate(FilteredMap(events), b, OrZero(MinFiltered(events + [e], b)));
  }

  /** The tally of `b` carries its largest and smallest reports so far. */
  lemma TallyOfBinary(events: seq<Event>, b: Binary, suites: map<string, SuiteTally>)
    requires KeysMatch(events, suites) && Proper(b)
    ensures
      var tally := TallyAt(suites, BinaryKey(b));
      tally.ignored == MaxIgnored(events, b) && tally.filteredOut == MinFiltered(events, b)
  {
    if b !in Binaries(events) {
      UnreportedBinary(events, b);
    }
    hide MaxIgnored, MinFiltered, Binaries, BinaryKey, Proper, AnonymousKey;
  }

  lemma NamedTotals(events: seq<Event>, e: Event, suites: map<string, SuiteTally>)
    requires e.Suite? && e.identity.Some? && Proper(e.identity.value)
    requires KeysMatch(events, suites) && TotalsMatch(events, suites)
    ensures
      var key := BinaryKey(e.identity.value);
      TotalsMatch(events + [e], suites[key := TallyAt(suites, key).Fold(e)])
  {
    hide Total, PassedTotal, FailedTotal, IgnoredTotal, FilteredTotal, MaxIgnored, MinFiltered, BinaryKey, Proper, Agree,
      KeysMatch;
    var b := e.identity.value;
    var key := BinaryKey(b);
    CountedTotals(events, e, suites, key);
    NamedSums(events, e, b);
    TallyOfBinary(events, b, suites);
    SnocPerBinary(events, e, b);
    FoldedTotals(suites, key, e, IgnoredDim);
    FoldedTotals(suites, key, e, FilteredDim);
  }

  lemma AnonymousSums(events: seq<Event>, e: Event)
    requires Anonymous(e)
    ensures IgnoredTotal(events + [e]) == IgnoredTotal(events) + Count(e.ignored)
    ensures FilteredTotal(events + [e]) == FilteredTotal(events) + Count(e.filteredOut)
  {
    hide SumMap, AnonymousIgnored, AnonymousFiltered, IgnoredMap, FilteredMap, PassedTotal, FailedTotal, Binaries;
    Snoc(events, e);
    SnocTotals(events, e);
  }

  lemma AnonymousTotals(events: seq<Event>, e: Event, suites: map<string, SuiteTally>, n: nat)
    requires Anonymous(e) && n == AnonymousCount(events) && AnonymousKey(n) !in suites
    requires TotalsMatch(events, suites)
    ensures TotalsMatch(events + [e], suites[AnonymousKey(n) := EMPTY_TALLY.Fold(e)])
  {
    hide Total, PassedTotal, FailedTotal, IgnoredTotal, FilteredTotal, AnonymousKey, Agree, AnonymousCount;
    var key := AnonymousKey(n);
    CountedTotals(events, e, suites, key);
    AnonymousSums(events, e);
    FoldedTotals(suites, key, e, IgnoredDim);
    FoldedTotals(suites, key, e, FilteredDim);
  }

  /** What holds after every event. */
  ghost predicate Invariant(events: seq<Event>) {
    var (suites, n) := Suites(events);
    n == AnonymousCount(events) % U32_SIZE && KeysMatch(events, suites) && CountsMatch(events, suites) && TotalsMatch(events, suites)
  }

  lemma SnocAnonymous(events: seq<Event>, e: Event)
    ensures AnonymousCount(events + [e]) == AddAnonymous(AnonymousCount(events), e)
  {
    FoldAppend(AddAnonymous, 0, events, [e]);
  }

  lemma NoBinaryAt(n: nat)
    ensures forall b :: Proper(b) ==> BinaryKey(b) != AnonymousKey(n)
  {
    hide BinaryKey, AnonymousKey, Proper;
    forall b | Proper(b) ensures BinaryKey(b) != AnonymousKey(n) {
      KeysApart(b, n);
    }
  }

  lemma InvariantStep(events: seq<Event>, e: Event)
    requires Invariant(events) && ProperEvents([e]) && AnonymousCount(events + [e]) <= U32_SIZE
    ensures Invariant(events + [e])
  {
    hide KeysMatch, CountsMatch, TotalsMatch, AnonymousCount, BinaryKey, AnonymousKey;
    var (suites, n) := Suites(events);
    assert (events + [e])[..|events|] == events;
    SnocAnonymous(events, e);
    assert e in [e];
    if !e.Suite? {
      OtherStep(events, e, suites);
      NoBinaryAt(0);
      OtherCounts(events, e, suites, AnonymousKey(0), EMPTY_TALLY);
    } else if e.identity.Some? {
      NamedStep(events, e, suites);
      NamedCounts(events, e, suites);
      NamedTotals(events, e, suites);
    } else {
      AnonymousStep(events, e, suites, n);
      NoBinaryAt(n);
      OtherCounts(events, e, suites, AnonymousKey(n), EMPTY_TALLY.Fold(e));
      AnonymousTotals(events, e, suites, n);
    }
  }

  lemma OtherStep(events: seq<Event>, e: Event, suites: map<string, SuiteTally>)
    requires !e.Suite? && KeysMatch(events, suites) && TotalsMatch(events, suites)
    ensures KeysMatch(events + [e], suites) && TotalsMatch(events + [e], suites)
  {
    Snoc(events, e);
    SnocTotals(events, e);
    forall c: Binary
      ensures MaxIgnored(events + [e], c) == MaxIgnored(events, c)
      ensures MinFiltered(events + [e], c) == MinFiltered(events, c)
    {
      SnocPerBinary(events, e, c);
    }
    hide Total, PassedTotal, FailedTotal, AnonymousIgnored, AnonymousFiltered, SumMap, Clip, AnonymousKey, Agree,
      IgnoredMap, FilteredMap, MaxIgnored, MinFiltered, Binaries, BinaryKey, AnonymousCount, Proper;
  }

  lemma {:induction false} InvariantHolds(events: seq<Event>)
    requires ProperEvents(events) && AnonymousCount(events) <= U32_SIZE
    ensures Invariant(events)
  {
    hide KeysMatch, CountsMatch, TotalsMatch;
    if events == [] {
      EmptyInvariant();
    } else {
      var rest, e := events[..|events| - 1], events[|events| - 1];
      assert events == rest + [e];
      Snoc(rest, e);
      InvariantHolds(rest);
      InvariantStep(rest, e);
    }
  }

  lemma EmptyInvariant()
    ensures Invariant([])
  {
    var none: map<string, SuiteTally> := map[];
    forall d ensures Total(d, none) == 0 {
      TotalIsSumMap(d, none);
      assert Column(d, none.Keys, none) == map[];
    }
    assert IgnoredMap([]) == map[] && FilteredMap([]) == map[];
  }

  /** A total as the 32-bit field can hold it. */
  function Field(n: nat): nat { if n < 0x1_0000_0000 then n else 0xFFFF_FFFF }

  /** Main result: the summary is the exact totals of the stream, clipped once,
      with passed and failed summed over all summaries, ignored as the sum over
      binaries of the largest report, filtered-out of the smallest, and the total
      their sum. */
  lemma SummaryIsExact(events: seq<Event>)
    requires ProperEvents(events) && AnonymousCount(events) <= U32_SIZE
    ensures SummaryOf(Suites(events).0) == ExactSummary(events)
    ensures var s := SummaryOf(Suites(events).0);
            && s.passed == Field(PassedTotal(events)) && s.failed == Field(FailedTotal(events))
            && s.ignored == Field(IgnoredTotal(events)) && s.filteredOut == Field(FilteredTotal(events))
            && s.total == Field(PassedTotal(events) + FailedTotal(events) + IgnoredTotal(events) + FilteredTotal(events))
  {
    SummaryIsClipped(events);
    hide SummaryOf, Suites, PassedTotal, FailedTotal, IgnoredTotal, FilteredTotal;
  }

  lemma SummaryIsClipped(events: seq<Event>)
    requires ProperEvents(events) && AnonymousCount(events) <= U32_SIZE
    ensures SummaryOf(Suites(events).0) == ExactSummary(events)
  {
    InvariantHolds(events);
    var suites := Suites(events).0;
    hide Total, PassedTotal, FailedTotal, IgnoredTotal, FilteredTotal, KeysMatch, CountsMatch, Suites, Clip;
    AgreeSum(Total(PassedDim, suites), PassedTotal(events), Total(FailedDim, suites), FailedTotal(events));
    var rest := IgnoredTotal(events) + FilteredTotal(events);
    AgreeSum(Total(PassedDim, suites) + Total(FailedDim, suites), PassedTotal(events) + FailedTotal(events), rest, rest);
  }
}
