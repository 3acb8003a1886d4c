/** Two approved patches on one revision that both apply. */
module EffectiveExample {
  import opened Ordering
  import opened Wrappers
  import opened Corpus
  import opened SourcePatch
  import opened Lifecycle
  import opened ApprovalBoundary
  import opened ApprovalExactness
  import opened EffectiveGraph

  /** A corpus with one revision, whose committed graph is `g`, and two patches on
      it: `p1` with the one operation `op1`, `p2` with `op2`; each has an approving
      review. */
  datatype Names<G, Op> = Names(revision: string, media: string, r1: string, r2: string, p1: string, p2: string,
                                g: G, h: G, op1: Op, op2: Op, b: Bindings)

  predicate Distinct<G, Op>(n: Names<G, Op>) {
    && n.r1 != n.r2 && n.revision != n.r1 && n.revision != n.r2
    && n.p1 != n.p2 && StringLeq(n.p1, n.p2)
    && {n.p1, n.p2} !! {n.revision, n.r1, n.r2}
  }

  function PatchOf<G, D, Op>(e: Engine<G, D, Op>, n: Names<G, Op>, uid: string, op: Op): Patch<D, Op> {
    Patch(uid, uid, n.revision, n.b.recipe, n.b.input, e.digest(n.g), [op], uid)
  }

  function ReviewOf(uid: string, patch: string): Node {
    Review(uid, uid, [(Reviews, patch)], PatchTarget(patch), SUPPORTED_REVIEW_CONTENT_SCHEMA, patch, Approve)
  }

  function TwoPatches<G, D, Op>(e: Engine<G, D, Op>, n: Names<G, Op>): Contents<G, D, Op> {
    Contents(map[n.revision := SourceRevision(n.revision, n.revision, [], n.media), n.r1 := ReviewOf(n.r1, n.p1), n.r2 := ReviewOf(n.r2, n.p2)],
             map[], map[n.revision := n.g],
             map[n.p1 := PatchOf(e, n, n.p1, n.op1), n.p2 := PatchOf(e, n, n.p2, n.op2)])
  }

  /** The engine takes `g` to itself by `op1` and to `h` by `op2`, and its
      validators accept the graphs and the corpus. */
  predicate NoOpFirst<G(==), D, Op>(e: Engine<G, D, Op>, n: Names<G, Op>) {
    && e.operate(n.revision, n.g, n.op1) == Success(n.g) && e.operate(n.revision, n.g, n.op2) == Success(n.h)
    && e.recompute(n.g) == n.g && e.recompute(n.h) == n.h
    && e.graphValid(n.revision, n.media, n.g) && e.graphValid(n.revision, n.media, n.h)
    && e.otherChecks(TwoPatches(e, n))
  }

  lemma TwoPatchesWellFormed<G, D, Op>(e: Engine<G, D, Op>, n: Names<G, Op>)
    requires Distinct(n)
    ensures WellFormed(TwoPatches(e, n)) && KnownRevision(TwoPatches(e, n), n.revision)
  {
    hide StringLeq;
    var c := TwoPatches(e, n);
    assert c.nodes[n.revision].uid == n.revision;
    assert forall u :: u in c.nodes ==> u in {n.revision, n.r1, n.r2} && c.nodes[u].id == u;
  }

  lemma TwoPatchesEdges<G, D, Op>(e: Engine<G, D, Op>, n: Names<G, Op>)
    requires Distinct(n)
    ensures EdgesResolve(TwoPatches(e, n))
  {
    hide StringLeq, KindsMatch;
    var c := TwoPatches(e, n);
    assert n.p1 !in c.nodes && n.p2 !in c.nodes;
  }

  lemma TwoPatchesReviews<G, D, Op>(e: Engine<G, D, Op>, n: Names<G, Op>)
    requires Distinct(n)
    ensures var c := TwoPatches(e, n); forall u :: u in c.nodes && c.nodes[u].Review? ==> ReviewCoherent(c, c.nodes[u])
  {
    hide StringLeq;
    var c := TwoPatches(e, n);
    forall u | u in c.nodes && c.nodes[u].Review? ensures ReviewCoherent(c, c.nodes[u]) {
      var p := c.nodes[u].target.uid;
      assert c.nodes[u].edges == [(Reviews, p)];
      assert [(Reviews, p)][1..] == [];
      assert Targets([(Reviews, p)], Reviews) == [p];
    }
  }

  lemma TwoPatchesBound<G, D, Op>(e: Engine<G, D, Op>, n: Names<G, Op>)
    requires Distinct(n) && KnownRevision(TwoPatches(e, n), n.revision)
    ensures PatchesBound(e, TwoPatches(e, n))
  {
    hide StringLeq, KnownRevision;
  }

  lemma TwoPatchesValid<G, D, Op>(e: Engine<G, D, Op>, n: Names<G, Op>)
    requires Distinct(n) && NoOpFirst(e, n)
    ensures WellFormed(TwoPatches(e, n)) && KnownRevision(TwoPatches(e, n), n.revision) && GraphValid(e, TwoPatches(e, n))
  {
    hide StringLeq, TwoPatches, WellFormed, KnownRevision, EdgesResolve, ReviewCoherent, PatchesBound, Distinct;
    TwoPatchesWellFormed(e, n);
    TwoPatchesEdges(e, n);
    TwoPatchesReviews(e, n);
    TwoPatchesBound(e, n);
  }

  lemma TwoPatchesApproved<G, D, Op>(e: Engine<G, D, Op>, n: Names<G, Op>)
    requires Distinct(n)
    ensures ApprovedPatches(TwoPatches(e, n), n.revision) == {n.p1, n.p2}
  {
    hide StringLeq;
    var c := TwoPatches(e, n);
    assert Superseded(c.nodes) == {};
    assert IsHead(c.nodes, PatchTarget(n.p1), n.r1) && Decides(c.nodes[n.r1], Approve, n.p1);
    assert IsHead(c.nodes, PatchTarget(n.p2), n.r2) && Decides(c.nodes[n.r2], Approve, n.p2);
    assert PatchState(c, n.p1) == Approved && PatchState(c, n.p2) == Approved;
  }

  lemma TwoPatchesInOrder<G, D, Op>(e: Engine<G, D, Op>, n: Names<G, Op>)
    requires Distinct(n)
    ensures InOrder(StringLeq, {n.p1, n.p2}) == [n.p1, n.p2]
  {
    hide StringLeq, InOrder;
    StringOrder();
    InOrderFacts(StringLeq, {n.p1, n.p2});
    StrictlySortedUnique(StringLeq, InOrder(StringLeq, {n.p1, n.p2}), [n.p1, n.p2]);
  }

  lemma OneOperation<G, D, Op>(e: Engine<G, D, Op>, revision: string, g: G, op: Op, h: G)
    requires e.operate(revision, g, op) == Success(h)
    ensures RunOperations(e, revision, g, [op]) == Success(h)
  {
    assert [op][1..] == [];
  }

  lemma PatchApplies<G, D, Op>(e: Engine<G, D, Op>, n: Names<G, Op>, uid: string, op: Op, h: G)
    requires NoOpFirst(e, n) && ((op == n.op1 && h == n.g) || (op == n.op2 && h == n.h))
    ensures Applied(e, n.g, PatchOf(e, n, uid, op), n.b, n.media) == Success(h)
  {
    hide RunOperations;
    OneOperation(e, n.revision, n.g, op, h);
  }

  lemma BothApply<G, D, Op>(e: Engine<G, D, Op>, n: Names<G, Op>)
    requires Distinct(n) && NoOpFirst(e, n)
    ensures ApplyAll(e, n.g, [PatchOf(e, n, n.p1, n.op1), PatchOf(e, n, n.p2, n.op2)], n.b, n.media) == Success(n.h)
  {
    hide Applied, PatchOf, NoOpFirst, Distinct;
    PatchApplies(e, n, n.p1, n.op1, n.g);
    PatchApplies(e, n, n.p2, n.op2, n.h);
    var ps := [PatchOf(e, n, n.p1, n.op1), PatchOf(e, n, n.p2, n.op2)];
    assert ps[1..] == [PatchOf(e, n, n.p2, n.op2)] && ps[1..][1..] == [];
    assert ApplyAll(e, n.h, ps[1..][1..], n.b, n.media) == Success(n.h);
    assert ApplyAll(e, n.g, ps[1..], n.b, n.media) == Success(n.h);
  }

  lemma NothingUnproducible<G, D, Op>(e: Engine<G, D, Op>, n: Names<G, Op>, u: string)
    requires Distinct(n) && NoOpFirst(e, n)
    ensures !Unproducible(e, TwoPatches(e, n), u)
  {
    hide StringLeq, PatchState, Applied;
    var c := TwoPatches(e, n);
    if u == n.p1 {
      PatchApplies(e, n, u, n.op1, n.g);
    } else if u == n.p2 {
      PatchApplies(e, n, u, n.op2, n.h);
    }
  }

  lemma TwoPatchesSequence<G, D, Op>(e: Engine<G, D, Op>, n: Names<G, Op>)
    requires Distinct(n)
    ensures ApprovedSequence(TwoPatches(e, n), n.revision) == [PatchOf(e, n, n.p1, n.op1), PatchOf(e, n, n.p2, n.op2)]
  {
    hide StringLeq, InOrder, ApprovedPatches;
    TwoPatchesApproved(e, n);
    TwoPatchesInOrder(e, n);
    StringOrder();
    InOrderFacts(StringLeq, {n.p1, n.p2});
    assert [n.p1, n.p2][0] == n.p1 && [n.p1, n.p2][1] == n.p2;
  }

  lemma TwoPatchesUnclaimed<G, D, Op>(e: Engine<G, D, Op>, n: Names<G, Op>, v: Violation)
    ensures !IsViolation(e, TwoPatches(e, n), v)
  {
    hide RequirementState;
  }

  /** A no-op first patch does not move the digest, so a second approved patch on
      the same revision still applies: the gate accepts this corpus and its
      effective graph carries both patches. This holds of every engine with a
      no-op operation. */
  lemma TwoApprovedPatchesCompose<G, D, Op>(e: Engine<G, D, Op>, n: Names<G, Op>)
    requires Distinct(n) && NoOpFirst(e, n)
    ensures var c := TwoPatches(e, n);
            && WellFormed(c) && Gate(e, c).Success? && KnownRevision(c, n.revision)
            && EffectiveOf(e, c, n.revision, n.b, MediaOf(c, n.revision)) == Success(Effective(n.revision, n.h, [n.p1, n.p2]))
  {
    hide StringLeq, InOrder, Applied, GraphValid, WellFormed, KnownRevision, EffectiveOf, Gate, PatchState, NoOpFirst,
      ApplyAll, PatchOf, ApprovedPatches, ApprovedSequence, IsViolation, Unproducible;
    var c := TwoPatches(e, n);
    TwoPatchesValid(e, n);
    TwoPatchesApproved(e, n);
    TwoPatchesInOrder(e, n);
    TwoPatchesSequence(e, n);
    BothApply(e, n);
    EffectiveIsFold(e, c, n.revision, n.b, n.media);
    forall v ensures !IsViolation(e, c, v) { TwoPatchesUnclaimed(e, n, v); }
    forall u ensures !Unproducible(e, c, u) { NothingUnproducible(e, n, u); }
    GateExact(e, c);
  }

  // ------------------------------------------------------------- an instance

  /** A graph by the kind of each node, with the operation that changes a kind. */
  type Kinds = map<string, string>

  datatype Reclassify = Reclassify(target: string, expectedKind: string, newKind: string)

  const DANGLING := "dangling target"
  const STALE := "stale precondition"

  function Operate(revision: string, g: Kinds, op: Reclassify): Result<Kinds, string> {
    if op.target !in g then Failure(DANGLING)
    else if g[op.target] != op.expectedKind then Failure(STALE)
    else Success(g[op.target := op.newKind])
  }

  /** Reclassifying a node to the kind it has is such an operation, whatever else
      the graph holds, whatever the digest and whatever the validators, as long as
      they accept both graphs and the corpus. */
  lemma ReclassifyComposes<D>(e: Engine<Kinds, D, Reclassify>, n: Names<Kinds, Reclassify>, node: string, kind: string)
    requires e.operate == Operate && Distinct(n) && node in n.g
    requires n.op1 == Reclassify(node, n.g[node], n.g[node]) && n.op2 == Reclassify(node, n.g[node], kind)
    requires n.h == n.g[node := kind] && e.recompute(n.g) == n.g && e.recompute(n.h) == n.h
    requires e.graphValid(n.revision, n.media, n.g) && e.graphValid(n.revision, n.media, n.h) && e.otherChecks(TwoPatches(e, n))
    ensures var c := TwoPatches(e, n);
            && WellFormed(c) && Gate(e, c).Success? && KnownRevision(c, n.revision)
            && EffectiveOf(e, c, n.revision, n.b, MediaOf(c, n.revision)) == Success(Effective(n.revision, n.h, [n.p1, n.p2]))
  {
    hide TwoPatches, Distinct, Gate, EffectiveOf, WellFormed, KnownRevision, MediaOf;
    assert n.g[node := n.g[node]] == n.g;
    TwoApprovedPatchesCompose(e, n);
  }
}
