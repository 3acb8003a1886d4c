/** The approval-gated effective source graph (`corpus/effective_graph.rs`):
    what it contains, what it depends on, and when it can be produced. */
module EffectiveGraph {
  import opened Ordering
  import opened Wrappers
  import opened Corpus
  import opened SourcePatch
  import opened Lifecycle
  import opened ApprovalBoundary
  import opened ApprovalExactness

  datatype Effective<G> = Effective(revision: string, graph: G, applied: seq<string>)

  datatype EffectiveError =
    | EvaluationFailed(error: LifecycleError)
    | UnknownSourceRevision(revision: string)
    | ApprovedPatchApplication(patchUid: string, source: PatchError)

  function Chain<G, D(==), Op>(e: Engine<G, D, Op>, c: Contents<G, D, Op>, evals: Evals, revision: string, b: Bindings, media: string,
                               keys: seq<string>, working: G, applied: seq<string>): Result<Effective<G>, EffectiveError>
    requires forall k :: k in keys ==> k in c.patches
    decreases |keys|
  {
    if keys == [] then Success(Effective(revision, working, applied))
    else
      var p := c.patches[keys[0]];
      if p.revision != revision || !(p.uid in evals && evals[p.uid] == Approved) then Chain(e, c, evals, revision, b, media, keys[1..], working, applied)
      else
        match Applied(e, working, p, b, media)
        case Failure(source) => Failure(ApprovedPatchApplication(p.uid, source))
        case Success(graph) => Chain(e, c, evals, revision, b, media, keys[1..], graph, applied + [p.uid])
  }

  ghost function EffectiveOf<G, D, Op>(e: Engine<G, D, Op>, c: Contents<G, D, Op>, revision: string, b: Bindings, media: string): Result<Effective<G>, EffectiveError> {
    match PatchEvaluations(e, c)
    case Failure(error) => Failure(EvaluationFailed(error))
    case Success(evals) =>
      if !KnownRevision(c, revision) then Failure(UnknownSourceRevision(revision))
      else
        StringOrder();
        InOrderFacts(StringLeq, c.patches.Keys);
        Chain(e, c, evals, revision, b, media, InOrder(StringLeq, c.patches.Keys), ParserGraph(e, c, revision), [])
  }

  method EffectiveSourceGraph<G, D(==), Op>(e: Engine<G, D, Op>, c: Contents<G, D, Op>, revision: string, b: Bindings, media: string)
    returns (r: Result<Effective<G>, EffectiveError>)
    ensures r == EffectiveOf(e, c, revision, b, media)
  {
    hide InOrder, StringLeq, Applied, StateOf, GraphValid, KnownRevision, Chain;
    var evaluated := PatchEvaluations(e, c);
    if evaluated.Failure? {
      return Failure(EvaluationFailed(evaluated.error));
    }
    if !KnownRevision(c, revision) {
      return Failure(UnknownSourceRevision(revision));
    }
    var evals := evaluated.value;
    var working := if revision in c.sourceGraphs then c.sourceGraphs[revision] else e.emptyGraph;
    var applied := [];
    StringOrder();
    InOrderFacts(StringLeq, c.patches.Keys);
    var keys := KeysInOrder(c.patches);
    var i := 0;
    while i < |keys|
      invariant 0 <= i <= |keys|
      invariant Chain(e, c, evals, revision, b, media, keys, ParserGraph(e, c, revision), [])
             == Chain(e, c, evals, revision, b, media, keys[i..], working, applied)
    {
      ChainStep(e, c, evals, revision, b, media, keys[i..], working, applied);
      assert keys[i..][1..] == keys[i + 1..];
      var p := c.patches[keys[i]];
      var approved := p.uid in evals && evals[p.uid] == Approved;
      if p.revision == revision && approved {
        var application := ApplyPatch(e, working, p, b, media);
        if application.Failure? {
          return Failure(ApprovedPatchApplication(p.uid, application.error));
        }
        working := application.value;
        applied := applied + [p.uid];
      }
      i := i + 1;
    }
    assert keys[i..] == [];
    ChainEnd(e, c, evals, revision, b, media, working, applied);
    r := Success(Effective(revision, working, applied));
  }

  lemma ChainEnd<G, D, Op>(e: Engine<G, D, Op>, c: Contents<G, D, Op>, evals: Evals, revision: string, b: Bindings, media: string, working: G, applied: seq<string>)
    ensures Chain(e, c, evals, revision, b, media, [], working, applied) == Success(Effective(revision, working, applied))
  {
  }

  lemma ChainStep<G, D, Op>(e: Engine<G, D, Op>, c: Contents<G, D, Op>, evals: Evals, revision: string, b: Bindings, media: string,
                            keys: seq<string>, working: G, applied: seq<string>)
    requires keys != [] && forall k :: k in keys ==> k in c.patches
    ensures var p := c.patches[keys[0]];
            var step := Applied(e, working, p, b, media);
            Chain(e, c, evals, revision, b, media, keys, working, applied) ==
              if p.revision != revision || !(p.uid in evals && evals[p.uid] == Approved) then Chain(e, c, evals, revision, b, media, keys[1..], working, applied)
              else if step.Failure? then Failure(ApprovedPatchApplication(p.uid, step.error))
              else Chain(e, c, evals, revision, b, media, keys[1..], step.value, applied + [p.uid])
  {
    hide Applied;
  }

  // -------------------------------------------------- what it is made of

  predicate Contributes<G, D, Op>(c: Contents<G, D, Op>, revision: string, u: string) {
    u in c.patches && c.patches[u].revision == revision && PatchState(c, u) == Approved
  }

  function ApprovedPatches<G, D, Op>(c: Contents<G, D, Op>, revision: string): set<string> {
    set u | u in c.patches && Contributes(c, revision, u)
  }

  /** Applying patches one after the other, stopping at the first failure. */
  function ApplyAll<G, D(==), Op>(e: Engine<G, D, Op>, g: G, ps: seq<Patch<D, Op>>, b: Bindings, media: string): Result<G, EffectiveError>
    decreases |ps|
  {
    if ps == [] then Success(g)
    else
      match Applied(e, g, ps[0], b, media)
      case Failure(source) => Failure(ApprovedPatchApplication(ps[0].uid, source))
      case Success(h) => ApplyAll(e, h, ps[1..], b, media)
  }

  function PatchesAt<G, D, Op>(c: Contents<G, D, Op>, keys: seq<string>): (r: seq<Patch<D, Op>>)
    requires forall k :: k in keys ==> k in c.patches
    ensures |r| == |keys| && forall i :: 0 <= i < |keys| ==> r[i] == c.patches[keys[i]]
  {
    if keys == [] then [] else [c.patches[keys[0]]] + PatchesAt(c, keys[1..])
  }

  function Contributing<G, D, Op>(c: Contents<G, D, Op>, revision: string, keys: seq<string>): (r: seq<string>)
    ensures forall k :: k in r <==> k in keys && Contributes(c, revision, k)
  {
    if keys == [] then []
    else (if Contributes(c, revision, keys[0]) then [keys[0]] else []) + Contributing(c, revision, keys[1..])
  }

  lemma {:induction false} ContributingSorted<G, D, Op>(c: Contents<G, D, Op>, revision: string, keys: seq<string>)
    requires StrictlySorted(StringLeq, keys)
    ensures StrictlySorted(StringLeq, Contributing(c, revision, keys))
  {
    hide Contributes, StringLeq, StrictlySorted;
    if keys != [] {
      StrictTail(StringLeq, keys);
      ContributingSorted(c, revision, keys[1..]);
      var rest := Contributing(c, revision, keys[1..]);
      if Contributes(c, revision, keys[0]) {
        StrictCons(StringLeq, keys[0], rest);
      } else {
        assert Contributing(c, revision, keys) == rest;
      }
    } else {
      StrictNone(StringLeq);
    }
  }

  lemma {:induction false} ChainIsFold<G, D, Op>(e: Engine<G, D, Op>, c: Contents<G, D, Op>, evals: Evals, revision: string, b: Bindings, media: string,
                                                 keys: seq<string>, working: G, applied: seq<string>)
    requires forall k :: k in keys ==> k in c.patches && c.patches[k].uid == k
    requires forall k :: k in keys ==> k in evals && evals[k] == PatchState(c, k)
    ensures var own := Contributing(c, revision, keys);
            var folded := ApplyAll(e, working, PatchesAt(c, own), b, media);
            Chain(e, c, evals, revision, b, media, keys, working, applied) ==
              if folded.Success? then Success(Effective(revision, folded.value, applied + own)) else Failure(folded.error)
    decreases |keys|
  {
    hide Applied, PatchState;
    if keys == [] {
      assert applied + [] == applied;
    } else {
      var u, rest := keys[0], keys[1..];
      assert keys == [u] + rest;
      var own := Contributing(c, revision, rest);
      if Contributes(c, revision, u) {
        var p := c.patches[u];
        assert PatchesAt(c, [u] + own) == [p] + PatchesAt(c, own);
        assert Contributing(c, revision, keys) == [u] + own;
        var step := Applied(e, working, p, b, media);
        if step.Success? {
          ChainIsFold(e, c, evals, revision, b, media, rest, step.value, applied + [u]);
          assert applied + [u] + own == applied + ([u] + own);
        }
      } else {
        assert Contributing(c, revision, keys) == own;
        ChainIsFold(e, c, evals, revision, b, media, rest, working, applied);
      }
    }
  }

  lemma ApprovedInOrder<G, D, Op>(c: Contents<G, D, Op>, revision: string)
    ensures Contributing(c, revision, InOrder(StringLeq, c.patches.Keys)) == InOrder(StringLeq, ApprovedPatches(c, revision))
  {
    hide InOrder, StringLeq, Contributes, Contributing;
    StringOrder();
    InOrderFacts(StringLeq, c.patches.Keys);
    InOrderFacts(StringLeq, ApprovedPatches(c, revision));
    ContributingSorted(c, revision, InOrder(StringLeq, c.patches.Keys));
    ApprovedKeys(c, revision);
    StrictlySortedUnique(StringLeq, Contributing(c, revision, InOrder(StringLeq, c.patches.Keys)), InOrder(StringLeq, ApprovedPatches(c, revision)));
  }

  lemma ApprovedKeys<G, D, Op>(c: Contents<G, D, Op>, revision: string)
    ensures forall u :: u in ApprovedPatches(c, revision) <==> u in c.patches.Keys && Contributes(c, revision, u)
  {
  }

  /** The approved patches of a revision in uid order. */
  ghost function ApprovedSequence<G, D, Op>(c: Contents<G, D, Op>, revision: string): seq<Patch<D, Op>> {
    StringOrder();
    InOrderFacts(StringLeq, ApprovedPatches(c, revision));
    PatchesAt(c, InOrder(StringLeq, ApprovedPatches(c, revision)))
  }

  /** The effective graph is the fold, in uid order, of exactly the approved
      patches of the revision over its parser graph, and the recorded uids are
      those patches, strictly increasing. */
  lemma EffectiveIsFold<G, D, Op>(e: Engine<G, D, Op>, c: Contents<G, D, Op>, revision: string, b: Bindings, media: string)
    requires WellFormed(c) && GraphValid(e, c) && KnownRevision(c, revision)
    ensures var folded := ApplyAll(e, ParserGraph(e, c, revision), ApprovedSequence(c, revision), b, media);
            var uids := InOrder(StringLeq, ApprovedPatches(c, revision));
            EffectiveOf(e, c, revision, b, media) ==
              if folded.Success? then Success(Effective(revision, folded.value, uids)) else Failure(folded.error)
    ensures StrictlySorted(StringLeq, InOrder(StringLeq, ApprovedPatches(c, revision)))
  {
    hide InOrder, StringLeq, GraphValid, KnownRevision, PatchState, Contributing, ApprovedPatches, Chain, ApplyAll, PatchesAt, StrictlySorted, KindAndId;
    StringOrder();
    InOrderFacts(StringLeq, c.patches.Keys);
    InOrderFacts(StringLeq, ApprovedPatches(c, revision));
    ApprovedInOrder(c, revision);
    var keys := InOrder(StringLeq, c.patches.Keys);
    ChainIsFold(e, c, PatchEvaluations(e, c).value, revision, b, media, keys, ParserGraph(e, c, revision), []);
    var own := Contributing(c, revision, keys);
    assert [] + own == own;
  }

  /** One patch after the other, from `g` on: patch `i` takes `hs[i]` to
      `hs[i + 1]` through the graphs `runs[i]`, one per operation. */
  ghost predicate PatchChain<G, D, Op>(e: Engine<G, D, Op>, g: G, ps: seq<Patch<D, Op>>, b: Bindings, media: string,
                                       hs: seq<G>, runs: seq<seq<G>>) {
    && |hs| == |ps| + 1 && |runs| == |ps| && hs[0] == g
    && forall i :: 0 <= i < |ps| ==> Produces(e, hs[i], ps[i], b, media, runs[i], hs[i + 1])
  }

  lemma {:induction false} ApplyAllRuns<G, D, Op>(e: Engine<G, D, Op>, g: G, ps: seq<Patch<D, Op>>, b: Bindings, media: string)
    returns (hs: seq<G>, runs: seq<seq<G>>)
    ensures ApplyAll(e, g, ps, b, media).Success? ==>
      PatchChain(e, g, ps, b, media, hs, runs) && hs[|ps|] == ApplyAll(e, g, ps, b, media).value
    decreases |ps|
  {
    hide Applied, Produces;
    hs, runs := [g], [];
    if ps != [] && Applied(e, g, ps[0], b, media).Success? {
      var h := Applied(e, g, ps[0], b, media).value;
      AppliedExactly(e, g, ps[0], b, media, h, "");
      var run :| Produces(e, g, ps[0], b, media, run, h);
      var more, rest := ApplyAllRuns(e, h, ps[1..], b, media);
      hs, runs := [g] + more, [run] + rest;
      if ApplyAll(e, h, ps[1..], b, media).Success? {
        forall i | 0 <= i < |ps| ensures Produces(e, hs[i], ps[i], b, media, runs[i], hs[i + 1]) {
          if i > 0 { assert ps[i] == ps[1..][i - 1]; }
        }
      }
    }
  }

  lemma {:induction false} RunsApplyAll<G, D, Op>(e: Engine<G, D, Op>, g: G, ps: seq<Patch<D, Op>>, b: Bindings, media: string,
                                                  hs: seq<G>, runs: seq<seq<G>>)
    requires PatchChain(e, g, ps, b, media, hs, runs)
    ensures ApplyAll(e, g, ps, b, media) == Success(hs[|ps|])
    decreases |ps|
  {
    hide Applied, Produces;
    if ps != [] {
      assert Produces(e, hs[0], ps[0], b, media, runs[0], hs[1]);
      AppliedExactly(e, g, ps[0], b, media, hs[1], "");
      assert forall i :: 0 <= i < |ps[1..]| ==> ps[1..][i] == ps[i + 1];
      RunsApplyAll(e, hs[1], ps[1..], b, media, hs[1..], runs[1..]);
    }
  }

  /** Main result: the effective graph is `h` exactly when there is a run that takes
      the parser graph there by every operation of every approved patch of the
      revision, in uid order and in the order of each patch. */
  lemma EffectiveIsRun<G, D, Op>(e: Engine<G, D, Op>, c: Contents<G, D, Op>, revision: string, b: Bindings, media: string, h: G)
    requires WellFormed(c) && GraphValid(e, c) && KnownRevision(c, revision)
    ensures var g, ps := ParserGraph(e, c, revision), ApprovedSequence(c, revision);
            EffectiveOf(e, c, revision, b, media).Success? && EffectiveOf(e, c, revision, b, media).value.graph == h <==>
              exists hs, runs :: PatchChain(e, g, ps, b, media, hs, runs) && hs[|ps|] == h
  {
    hide InOrder, StringLeq, GraphValid, KnownRevision, WellFormed, ApprovedPatches, EffectiveOf, ApplyAll, ApprovedSequence, Produces;
    EffectiveIsFold(e, c, revision, b, media);
    var g, ps := ParserGraph(e, c, revision), ApprovedSequence(c, revision);
    var hs, runs := ApplyAllRuns(e, g, ps, b, media);
    if his, its :| PatchChain(e, g, ps, b, media, his, its) && his[|ps|] == h {
      RunsApplyAll(e, g, ps, b, media, his, its);
    }
  }

  /** A failed fold blames the first patch that does not apply to what the ones before
      it made. */
  lemma {:induction false} ApplyAllFailsAt<G, D, Op>(e: Engine<G, D, Op>, g: G, ps: seq<Patch<D, Op>>, b: Bindings, media: string)
    returns (k: nat, hs: seq<G>, runs: seq<seq<G>>)
    requires ApplyAll(e, g, ps, b, media).Failure?
    ensures k < |ps| && PatchChain(e, g, ps[..k], b, media, hs, runs)
    ensures Applied(e, hs[k], ps[k], b, media).Failure?
    ensures ApplyAll(e, g, ps, b, media).error == ApprovedPatchApplication(ps[k].uid, Applied(e, hs[k], ps[k], b, media).error)
    decreases |ps|
  {
    hide Applied, Produces;
    var step := Applied(e, g, ps[0], b, media);
    if step.Failure? {
      k, hs, runs := 0, [g], [];
      assert ps[..0] == [];
    } else {
      var j, more, rest := ApplyAllFailsAt(e, step.value, ps[1..], b, media);
      AppliedExactly(e, g, ps[0], b, media, step.value, "");
      var run :| Produces(e, g, ps[0], b, media, run, step.value);
      k, hs, runs := j + 1, [g] + more, [run] + rest;
      forall i | 0 <= i < k ensures Produces(e, hs[i], ps[..k][i], b, media, runs[i], hs[i + 1]) {
        if i > 0 { assert ps[..k][i] == ps[1..][..j][i - 1]; }
      }
    }
  }

  /** Main result: why an effective graph cannot be produced. The corpus is not valid,
      the revision is not on record, or, after the patches before it, this approved
      patch does not apply. */
  lemma EffectiveFailsAt<G, D, Op>(e: Engine<G, D, Op>, c: Contents<G, D, Op>, revision: string, b: Bindings, media: string)
    returns (k: nat, hs: seq<G>, runs: seq<seq<G>>)
    requires WellFormed(c)
    ensures EffectiveOf(e, c, revision, b, media) == Failure(EvaluationFailed(InvalidGraph)) <==> !GraphValid(e, c)
    ensures EffectiveOf(e, c, revision, b, media) == Failure(UnknownSourceRevision(revision)) <==> GraphValid(e, c) && !KnownRevision(c, revision)
    ensures EffectiveOf(e, c, revision, b, media).Failure? && GraphValid(e, c) && KnownRevision(c, revision) ==>
              var ps := ApprovedSequence(c, revision);
              && k < |ps| && PatchChain(e, ParserGraph(e, c, revision), ps[..k], b, media, hs, runs)
              && Applied(e, hs[k], ps[k], b, media).Failure?
              && EffectiveOf(e, c, revision, b, media).error == ApprovedPatchApplication(ps[k].uid, Applied(e, hs[k], ps[k], b, media).error)
  {
    k, hs, runs := 0, [], [];
    EffectiveDefenses(e, c, revision, b, media);
    hide InOrder, StringLeq, GraphValid, KnownRevision, WellFormed, ApprovedPatches, EffectiveOf, ApplyAll, ApprovedSequence, Produces, Applied;
    if GraphValid(e, c) && KnownRevision(c, revision) {
      EffectiveIsFold(e, c, revision, b, media);
      if ApplyAll(e, ParserGraph(e, c, revision), ApprovedSequence(c, revision), b, media).Failure? {
        k, hs, runs := ApplyAllFailsAt(e, ParserGraph(e, c, revision), ApprovedSequence(c, revision), b, media);
      }
    }
  }

  lemma EffectiveDefenses<G, D, Op>(e: Engine<G, D, Op>, c: Contents<G, D, Op>, revision: string, b: Bindings, media: string)
    ensures !GraphValid(e, c) ==> EffectiveOf(e, c, revision, b, media) == Failure(EvaluationFailed(InvalidGraph))
    ensures GraphValid(e, c) && !KnownRevision(c, revision) ==> EffectiveOf(e, c, revision, b, media) == Failure(UnknownSourceRevision(revision))
  {
    hide InOrder, StringLeq, GraphValid, KnownRevision, Chain;
  }

  // --------------------------------------------------- what it depends on

  ghost predicate SameApproved<G, D, Op>(c: Contents<G, D, Op>, d: Contents<G, D, Op>, revision: string) {
    && ApprovedPatches(c, revision) == ApprovedPatches(d, revision)
    && forall u :: u in ApprovedPatches(c, revision) ==> c.patches[u] == d.patches[u]
  }

  lemma SameSequence<G, D, Op>(c: Contents<G, D, Op>, d: Contents<G, D, Op>, revision: string)
    requires SameApproved(c, d, revision)
    ensures ApprovedSequence(c, revision) == ApprovedSequence(d, revision)
  {
    hide InOrder, StringLeq, Contributes, PatchesAt;
    StringOrder();
    var keys := InOrder(StringLeq, ApprovedPatches(c, revision));
    InOrderFacts(StringLeq, ApprovedPatches(c, revision));
    forall i | 0 <= i < |keys| ensures PatchesAt(c, keys)[i] == PatchesAt(d, keys)[i] {
      assert keys[i] in keys;
    }
  }

  /** Candidate, rejected, stale and foreign patches, and everything else in the
      corpus, leave no mark: two valid corpora with the same parser graph and the
      same approved patches give the same outcome, success or error. */
  lemma OnlyApprovedCount<G, D, Op>(e: Engine<G, D, Op>, c: Contents<G, D, Op>, d: Contents<G, D, Op>, revision: string, b: Bindings, media: string)
    requires WellFormed(c) && GraphValid(e, c) && KnownRevision(c, revision)
    requires WellFormed(d) && GraphValid(e, d) && KnownRevision(d, revision)
    requires ParserGraph(e, c, revision) == ParserGraph(e, d, revision) && SameApproved(c, d, revision)
    ensures EffectiveOf(e, c, revision, b, media) == EffectiveOf(e, d, revision, b, media)
  {
    hide InOrder, StringLeq, GraphValid, KnownRevision, WellFormed, ApprovedPatches, EffectiveOf, ApplyAll, ApprovedSequence;
    EffectiveIsFold(e, c, revision, b, media);
    EffectiveIsFold(e, d, revision, b, media);
    SameSequence(c, d, revision);
  }

  // ------------------------------------------------ when it can be produced

  /** Each listed patch was recorded against the graph `g` of this revision. */
  ghost predicate BoundTo<G, D, Op>(e: Engine<G, D, Op>, revision: string, g: G, ps: seq<Patch<D, Op>>) {
    forall p :: p in ps ==> p.revision == revision && p.preDigest == e.digest(g)
  }

  /** No listed patch turns `g` into a different graph of the same digest. */
  ghost predicate NoCollision<G, D, Op>(e: Engine<G, D, Op>, g: G, ps: seq<Patch<D, Op>>, b: Bindings, media: string) {
    forall p :: p in ps && Applied(e, g, p, b, media).Success? && e.digest(Applied(e, g, p, b, media).value) == e.digest(g) ==>
      Applied(e, g, p, b, media).value == g
  }

  /** Every patch applies to `g`, and all but the last leave it as it is. */
  ghost predicate Chainable<G, D, Op>(e: Engine<G, D, Op>, g: G, ps: seq<Patch<D, Op>>, b: Bindings, media: string) {
    && (forall i :: 0 <= i < |ps| ==> Applied(e, g, ps[i], b, media).Success?)
    && (forall i :: 0 <= i < |ps| - 1 ==> Applied(e, g, ps[i], b, media) == Success(g))
  }

  lemma ChainableCons<G, D, Op>(e: Engine<G, D, Op>, g: G, ps: seq<Patch<D, Op>>, b: Bindings, media: string)
    requires |ps| >= 2
    ensures Chainable(e, g, ps, b, media) <==> Applied(e, g, ps[0], b, media) == Success(g) && Chainable(e, g, ps[1..], b, media)
  {
    hide Applied;
    var t := ps[1..];
    assert forall i :: 0 <= i < |t| ==> t[i] == ps[i + 1];
    if Chainable(e, g, t, b, media) && Applied(e, g, ps[0], b, media) == Success(g) {
      forall i | 0 <= i < |ps| ensures Applied(e, g, ps[i], b, media).Success? && (i < |ps| - 1 ==> Applied(e, g, ps[i], b, media) == Success(g)) {
        if i > 0 { assert ps[i] == t[i - 1]; }
      }
    }
    if Chainable(e, g, ps, b, media) {
      forall i | 0 <= i < |t| ensures Applied(e, g, t[i], b, media).Success? && (i < |t| - 1 ==> Applied(e, g, t[i], b, media) == Success(g)) {
        assert t[i] == ps[i + 1];
      }
    }
  }

  lemma {:induction false} ApplyAllExact<G, D, Op>(e: Engine<G, D, Op>, revision: string, g: G, ps: seq<Patch<D, Op>>, b: Bindings, media: string)
    requires BoundTo(e, revision, g, ps) && NoCollision(e, g, ps, b, media)
    ensures ApplyAll(e, g, ps, b, media).Success? <==> Chainable(e, g, ps, b, media)
    ensures ApplyAll(e, g, ps, b, media).Success? ==>
              ApplyAll(e, g, ps, b, media).value == if ps == [] then g else Applied(e, g, ps[|ps| - 1], b, media).value
    decreases |ps|
  {
    if |ps| == 1 {
      assert ps[1..] == [];
    } else if |ps| >= 2 {
      var step := Applied(e, g, ps[0], b, media);
      ChainableCons(e, g, ps, b, media);
      assert forall p :: p in ps[1..] ==> p in ps;
      assert ps[1] in ps && ps[0] in ps;
      if step == Success(g) {
        ApplyAllExact(e, revision, g, ps[1..], b, media);
      } else if step.Success? {
        StaleForSecond(e, revision, g, ps, b, media);
      }
    }
  }

  lemma StaleForSecond<G, D, Op>(e: Engine<G, D, Op>, revision: string, g: G, ps: seq<Patch<D, Op>>, b: Bindings, media: string)
    requires |ps| >= 2 && BoundTo(e, revision, g, ps) && NoCollision(e, g, ps, b, media)
    requires Applied(e, g, ps[0], b, media).Success? && Applied(e, g, ps[0], b, media).value != g
    ensures ApplyAll(e, g, ps, b, media).Failure?
    ensures ApplyAll(e, g, ps, b, media).error.ApprovedPatchApplication? && ApplyAll(e, g, ps, b, media).error.patchUid == ps[1].uid
    ensures ApplyAll(e, g, ps, b, media).error.source.StaleBinding?
  {
    hide RunOperations;
    assert ps[0] in ps && ps[1] in ps;
    var h := Applied(e, g, ps[0], b, media).value;
    assert ps[1..][0] == ps[1];
    assert Applied(e, h, ps[1], b, media).Failure? && Applied(e, h, ps[1], b, media).error.StaleBinding?;
  }

  lemma ApprovedBound<G, D, Op>(e: Engine<G, D, Op>, c: Contents<G, D, Op>, revision: string)
    requires WellFormed(c) && GraphValid(e, c)
    ensures BoundTo(e, revision, ParserGraph(e, c, revision), ApprovedSequence(c, revision))
  {
    hide InOrder, StringLeq, PatchState, EdgesResolve, ReviewCoherent, KnownRevision, WellKeyed;
    StringOrder();
    InOrderFacts(StringLeq, ApprovedPatches(c, revision));
    var keys := InOrder(StringLeq, ApprovedPatches(c, revision));
    forall p | p in PatchesAt(c, keys) ensures p.revision == revision && p.preDigest == e.digest(ParserGraph(e, c, revision)) {
      var i :| 0 <= i < |keys| && PatchesAt(c, keys)[i] == p;
      assert keys[i] in keys && Contributes(c, revision, keys[i]);
    }
  }

  /** Up to digest collisions, the effective graph can be produced exactly when
      every approved patch applies to the parser graph and every one but the
      last leaves that graph unchanged; it is then the parser graph with the last
      approved patch applied. */
  lemma ProducibleExactly<G, D, Op>(e: Engine<G, D, Op>, c: Contents<G, D, Op>, revision: string, b: Bindings, media: string)
    requires WellFormed(c) && GraphValid(e, c) && KnownRevision(c, revision)
    requires NoCollision(e, ParserGraph(e, c, revision), ApprovedSequence(c, revision), b, media)
    ensures var g, ps := ParserGraph(e, c, revision), ApprovedSequence(c, revision);
            EffectiveOf(e, c, revision, b, media).Success? <==> Chainable(e, g, ps, b, media)
    ensures var g, ps := ParserGraph(e, c, revision), ApprovedSequence(c, revision);
            EffectiveOf(e, c, revision, b, media).Success? ==>
              EffectiveOf(e, c, revision, b, media).value.graph == if ps == [] then g else Applied(e, g, ps[|ps| - 1], b, media).value
  {
    hide InOrder, StringLeq, GraphValid, KnownRevision, WellFormed, ApprovedPatches, EffectiveOf, ApplyAll, ApprovedSequence, Chainable, Applied, BoundTo, NoCollision;
    EffectiveIsFold(e, c, revision, b, media);
    ApprovedBound(e, c, revision);
    ApplyAllExact(e, revision, ParserGraph(e, c, revision), ApprovedSequence(c, revision), b, media);
  }

  /** If the first of two or more approved patches changes the parser graph, the
      second is refused for a stale binding. */
  lemma SecondFailsClosed<G, D, Op>(e: Engine<G, D, Op>, c: Contents<G, D, Op>, revision: string, b: Bindings, media: string)
    requires WellFormed(c) && GraphValid(e, c) && KnownRevision(c, revision)
    requires NoCollision(e, ParserGraph(e, c, revision), ApprovedSequence(c, revision), b, media)
    requires |ApprovedSequence(c, revision)| >= 2
    requires var first := Applied(e, ParserGraph(e, c, revision), ApprovedSequence(c, revision)[0], b, media);
             first.Success? && first.value != ParserGraph(e, c, revision)
    ensures var r := EffectiveOf(e, c, revision, b, media);
            r.Failure? && r.error.ApprovedPatchApplication? && r.error.patchUid == ApprovedSequence(c, revision)[1].uid && r.error.source.StaleBinding?
  {
    hide InOrder, StringLeq, GraphValid, KnownRevision, WellFormed, ApprovedPatches, EffectiveOf, ApplyAll, ApprovedSequence, Applied, BoundTo, NoCollision;
    EffectiveIsFold(e, c, revision, b, media);
    ApprovedBound(e, c, revision);
    StaleForSecond(e, revision, ParserGraph(e, c, revision), ApprovedSequence(c, revision), b, media);
  }

  // ------------------------------------------------- the gate and the build

  /** A revision with at most one approved patch: if the gate accepts the corpus,
      the effective graph can be produced under that patch's bindings and the
      revision's media type. */
  lemma GateImpliesBuild<G, D, Op>(e: Engine<G, D, Op>, c: Contents<G, D, Op>, revision: string, b: Bindings)
    requires WellFormed(c) && Gate(e, c).Success? && KnownRevision(c, revision)
    requires |ApprovedSequence(c, revision)| <= 1
    requires forall p :: p in ApprovedSequence(c, revision) ==> b == Bindings(p.recipeDigest, p.inputDigest)
    ensures EffectiveOf(e, c, revision, b, MediaOf(c, revision)).Success?
  {
    hide InOrder, StringLeq, GraphValid, KnownRevision, WellFormed, ApprovedPatches, EffectiveOf, Applied, ApprovedSequence, PatchState, IsViolation, Gate, MediaOf;
    GateExact(e, c);
    EffectiveIsFold(e, c, revision, b, MediaOf(c, revision));
    var ps := ApprovedSequence(c, revision);
    if |ps| == 1 {
      assert ps[0] in ps;
      var u := ApprovedMember(c, revision, ps[0]);
      assert !Unproducible(e, c, u);
      assert ps[1..] == [];
    }
  }

  lemma ApprovedMember<G, D, Op>(c: Contents<G, D, Op>, revision: string, p: Patch<D, Op>) returns (u: string)
    requires p in ApprovedSequence(c, revision)
    ensures Contributes(c, revision, u) && c.patches[u] == p
  {
    hide InOrder, StringLeq, PatchState;
    StringOrder();
    var keys := InOrder(StringLeq, ApprovedPatches(c, revision));
    InOrderFacts(StringLeq, ApprovedPatches(c, revision));
    var i :| 0 <= i < |keys| && PatchesAt(c, keys)[i] == p;
    u := keys[i];
    assert u in keys;
  }

  /** Conversely, an effective graph shows that each patch it applied is
      producible, so the gate has no patch of that revision to blame. */
  lemma BuildImpliesProducible<G, D, Op>(e: Engine<G, D, Op>, c: Contents<G, D, Op>, revision: string, b: Bindings, u: string)
    requires WellFormed(c) && GraphValid(e, c) && KnownRevision(c, revision)
    requires NoCollision(e, ParserGraph(e, c, revision), ApprovedSequence(c, revision), b, MediaOf(c, revision))
    requires EffectiveOf(e, c, revision, b, MediaOf(c, revision)).Success?
    requires u in c.patches && c.patches[u].revision == revision
    ensures !Unproducible(e, c, u)
  {
    hide InOrder, StringLeq, GraphValid, KnownRevision, WellFormed, EffectiveOf, ApprovedSequence, PatchState, MediaOf, NoCollision, RunOperations;
    if PatchState(c, u) == Approved {
      ProducibleExactly(e, c, revision, b, MediaOf(c, revision));
      var i := ApprovedIndex(c, revision, u);
    }
  }

  lemma ApprovedIndex<G, D, Op>(c: Contents<G, D, Op>, revision: string, u: string) returns (i: nat)
    requires Contributes(c, revision, u)
    ensures i < |ApprovedSequence(c, revision)| && ApprovedSequence(c, revision)[i] == c.patches[u]
  {
    hide InOrder, StringLeq, PatchState;
    StringOrder();
    var keys := InOrder(StringLeq, ApprovedPatches(c, revision));
    InOrderFacts(StringLeq, ApprovedPatches(c, revision));
    assert u in keys;
    i :| 0 <= i < |keys| && keys[i] == u;
  }
}
