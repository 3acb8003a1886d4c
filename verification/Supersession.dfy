/** What the review lifecycle promises (`corpus/lifecycle.rs`,
    `graph/validation.rs`, `graph/review_invariants.rs`), written over nodes and
    edges: which reviews decide, and what superseding one does. */
module Supersession {
  import opened Ordering
  import opened Wrappers
  import opened Corpus
  import opened SourcePatch
  import opened Lifecycle
  import opened ApprovalBoundary
  import opened ApprovalExactness

  // ---------------------------------------------------------- which state it is

  /** Some review of `target` that no review supersedes decides this way on the
      content with that digest. */
  ghost predicate Decided(nodes: map<string, Node>, target: ReviewTarget, decision: Decision, digest: string) {
    exists n :: Effective(nodes, target, n) && n.decision == decision && n.reviewedDigest == digest
  }

  lemma DecidedByHead(nodes: map<string, Node>, target: ReviewTarget, decision: Decision, digest: string)
    ensures Decided(nodes, target, decision, digest) <==>
      exists u :: u in nodes && IsHead(nodes, target, u) && Decides(nodes[u], decision, digest)
  {
    hide IsSuperseded, Superseded;
    if n :| Effective(nodes, target, n) && n.decision == decision && n.reviewedDigest == digest {
      EffectiveExactly(nodes, target, n);
      var u :| u in nodes && IsHead(nodes, target, u) && nodes[u] == n;
      assert Decides(nodes[u], decision, digest);
    }
    if u :| u in nodes && IsHead(nodes, target, u) && Decides(nodes[u], decision, digest) {
      EffectiveExactly(nodes, target, nodes[u]);
    }
  }

  lemma ApprovedOnce(nodes: map<string, Node>, target: ReviewTarget)
    ensures (exists n :: Effective(nodes, target, n) && n.decision == Approve) <==>
      exists u :: u in nodes && IsHead(nodes, target, u) && nodes[u].decision == Approve
  {
    hide IsSuperseded, Superseded;
    if n :| Effective(nodes, target, n) && n.decision == Approve {
      EffectiveExactly(nodes, target, n);
      var u :| u in nodes && IsHead(nodes, target, u) && nodes[u] == n;
      assert nodes[u].decision == Approve;
    }
    if u :| u in nodes && IsHead(nodes, target, u) && nodes[u].decision == Approve {
      EffectiveExactly(nodes, target, nodes[u]);
    }
  }

  /** Main result, the truth table over the reviews that no review supersedes: a
      current rejection beats a current approval, which beats an approval of other
      content. */
  lemma StateExactly(nodes: map<string, Node>, target: ReviewTarget, digest: string)
    ensures var state := StateOf(nodes, target, digest);
            var rejected, approved := Decided(nodes, target, Reject, digest), Decided(nodes, target, Approve, digest);
            var ever := exists n :: Effective(nodes, target, n) && n.decision == Approve;
            && (state == Rejected <==> rejected)
            && (state == Approved <==> approved && !rejected)
            && (state == Stale <==> !approved && !rejected && ever)
            && (state == Candidate <==> !approved && !rejected && !ever)
  {
    hide Decided, Effective, IsHead;
    DecidedByHead(nodes, target, Reject, digest);
    DecidedByHead(nodes, target, Approve, digest);
    ApprovedOnce(nodes, target);
  }

  /** A requirement is approved by reviews of itself at the digest of its present
      content, a patch by reviews of the patch at its recorded content digest. */
  lemma ApprovedExactly<G, D, Op>(e: Engine<G, D, Op>, c: Contents<G, D, Op>, u: string)
    ensures u in c.nodes ==>
      var target, digest := RequirementTarget(u), e.requirementDigest(c.nodes[u]);
      RequirementState(e, c.nodes, u) == Approved <==> Decided(c.nodes, target, Approve, digest) && !Decided(c.nodes, target, Reject, digest)
    ensures u in c.patches ==>
      var target, digest := PatchTarget(u), c.patches[u].contentDigest;
      PatchState(c, u) == Approved <==> Decided(c.nodes, target, Approve, digest) && !Decided(c.nodes, target, Reject, digest)
  {
    hide Decided, StateOf;
    if u in c.nodes { StateExactly(c.nodes, RequirementTarget(u), e.requirementDigest(c.nodes[u])); }
    if u in c.patches { StateExactly(c.nodes, PatchTarget(u), c.patches[u].contentDigest); }
  }

  // ------------------------------------------------------------- superseding

  lemma SupersededWith(nodes: map<string, Node>, n: Node, uid: string)
    requires n.uid !in nodes && n.Review?
    ensures IsSuperseded(nodes[n.uid := n], uid) <==> IsSuperseded(nodes, uid) || (Supersedes, uid) in n.edges
  {
    var more := nodes[n.uid := n];
    if v :| v in nodes && nodes[v].Review? && (Supersedes, uid) in nodes[v].edges {
      assert v in more && more[v] == nodes[v];
    }
    if (Supersedes, uid) in n.edges {
      assert n.uid in more && more[n.uid] == n;
    }
  }

  /** After one more review, what decides is that review, unless it is superseded,
      and what decided before and is not superseded by it. */
  lemma EffectiveWith(nodes: map<string, Node>, n: Node, target: ReviewTarget, m: Node)
    requires n.uid !in nodes && n.Review?
    ensures Effective(nodes[n.uid := n], target, m) <==>
      || (Effective(nodes, target, m) && (Supersedes, m.uid) !in n.edges)
      || (m == n && n.target == target && !IsSuperseded(nodes, n.uid) && (Supersedes, n.uid) !in n.edges)
  {
    hide IsSuperseded;
    var more := nodes[n.uid := n];
    SupersededWith(nodes, n, m.uid);
    if u :| u in nodes && nodes[u] == m {
      assert more[u] == m;
    }
    assert more[n.uid] == n;
  }

  /** Main result: a current approving review that supersedes every head of its
      target settles it: the state is approved, whatever was decided before. */
  lemma SettlingReview(nodes: map<string, Node>, n: Node, digest: string)
    requires n.uid !in nodes && n.Review? && n.decision == Approve && n.reviewedDigest == digest
    requires !IsSuperseded(nodes, n.uid) && (Supersedes, n.uid) !in n.edges
    requires forall m :: Effective(nodes, n.target, m) ==> (Supersedes, m.uid) in n.edges
    ensures StateOf(nodes[n.uid := n], n.target, digest) == Approved
  {
    hide Effective, IsSuperseded, StateOf;
    var more := nodes[n.uid := n];
    forall m ensures Effective(more, n.target, m) <==> m == n {
      EffectiveWith(nodes, n, n.target, m);
    }
    StateExactly(more, n.target, digest);
    assert Decided(more, n.target, Approve, digest);
  }

  /** It settles nothing else: a target none of whose heads it supersedes keeps its
      state. */
  lemma OtherTargetsKeep(nodes: map<string, Node>, n: Node, target: ReviewTarget, digest: string)
    requires n.uid !in nodes && n.Review? && n.target != target
    requires forall m :: Effective(nodes, target, m) ==> (Supersedes, m.uid) !in n.edges
    ensures StateOf(nodes[n.uid := n], target, digest) == StateOf(nodes, target, digest)
  {
    hide Effective, IsSuperseded, StateOf;
    var more := nodes[n.uid := n];
    forall m ensures Effective(more, target, m) <==> Effective(nodes, target, m) {
      EffectiveWith(nodes, n, target, m);
    }
    SameEffective(nodes, more, target, digest);
  }

  lemma SameEffective(nodes: map<string, Node>, more: map<string, Node>, target: ReviewTarget, digest: string)
    requires forall m :: Effective(more, target, m) <==> Effective(nodes, target, m)
    ensures StateOf(more, target, digest) == StateOf(nodes, target, digest)
  {
    hide Effective, StateOf;
    StateExactly(nodes, target, digest);
    StateExactly(more, target, digest);
    assert Decided(more, target, Reject, digest) == Decided(nodes, target, Reject, digest);
    assert Decided(more, target, Approve, digest) == Decided(nodes, target, Approve, digest);
  }

  /** Main result: a superseded review decides nothing. Whatever decision and digest
      it carries, for whatever target, every state is the same. */
  lemma SupersededDecidesNothing(nodes: map<string, Node>, u: string, decision: Decision, reviewed: string, target: ReviewTarget, digest: string)
    requires u in nodes && nodes[u].Review? && IsSuperseded(nodes, nodes[u].uid)
    ensures StateOf(nodes[u := nodes[u].(decision := decision, reviewedDigest := reviewed)], target, digest) == StateOf(nodes, target, digest)
  {
    hide StateOf, IsSuperseded;
    var n := nodes[u].(decision := decision, reviewedDigest := reviewed);
    var more := nodes[u := n];
    forall m ensures Effective(more, target, m) <==> Effective(nodes, target, m) {
      SupersededAlike(nodes, u, n, m.uid);
      SupersededAlike(nodes, u, n, nodes[u].uid);
      if v :| v in nodes && nodes[v] == m && v != u { assert more[v] == m; }
      if v :| v in more && more[v] == m && v != u { assert nodes[v] == m; }
    }
    SameEffective(nodes, more, target, digest);
  }

  lemma SupersededAlike(nodes: map<string, Node>, u: string, n: Node, uid: string)
    requires u in nodes && nodes[u].Review? && n.Review? && n.edges == nodes[u].edges
    ensures IsSuperseded(nodes[u := n], uid) <==> IsSuperseded(nodes, uid)
  {
    var more := nodes[u := n];
    if v :| v in nodes && nodes[v].Review? && (Supersedes, uid) in nodes[v].edges {
      assert v in more && more[v].Review? && (Supersedes, uid) in more[v].edges;
    }
    if v :| v in more && more[v].Review? && (Supersedes, uid) in more[v].edges {
      assert v in nodes && nodes[v].Review? && (Supersedes, uid) in nodes[v].edges;
    }
  }

  /** The gate follows: once a settling review is on record, no claim on that
      requirement is a violation. */
  lemma SettlingClearsTheGate<G, D, Op>(e: Engine<G, D, Op>, c: Contents<G, D, Op>, n: Node, v: Violation)
    requires n.uid !in c.nodes && n.Review? && n.decision == Approve
    requires n.target.RequirementTarget? && n.target.uid in c.nodes
    requires n.reviewedDigest == e.requirementDigest(c.nodes[n.target.uid])
    requires !IsSuperseded(c.nodes, n.uid) && (Supersedes, n.uid) !in n.edges
    requires forall m :: Effective(c.nodes, n.target, m) ==> (Supersedes, m.uid) in n.edges
    ensures IsViolation(e, c.(nodes := c.nodes[n.uid := n]), v) ==> v.requirementUid != n.target.uid
  {
    hide StateOf, Effective, IsSuperseded;
    SettlingReview(c.nodes, n, n.reviewedDigest);
  }

  // --------------------------------------------------------- what validity gives

  /** In a valid graph every edge joins what its kind says. */
  lemma EdgesJoin<G, D, Op>(e: Engine<G, D, Op>, c: Contents<G, D, Op>, u: string, kind: EdgeKind, t: string)
    requires GraphValid(e, c) && u in c.nodes && (kind, t) in c.nodes[u].edges
    ensures kind == DerivesFrom ==> c.nodes[u].Requirement? && t in c.nodes && c.nodes[t].Requirement?
    ensures kind == Verifies ==> c.nodes[u].Test? && t in c.nodes && c.nodes[t].Requirement?
    ensures kind == Reviews ==> c.nodes[u].Review? && if t in c.nodes then c.nodes[t].Requirement? else t in c.patches
    ensures kind == Supersedes ==> t in c.nodes
    ensures kind == Supersedes ==> (c.nodes[u].Review? && c.nodes[t].Review?) || (c.nodes[u].SourceRevision? && c.nodes[t].SourceRevision?)
  {
    hide ReviewCoherent, PatchesBound;
    var edge := (kind, t);
    assert edge in c.nodes[u].edges && edge.0 == kind && edge.1 == t;
  }

  lemma {:induction false} TargetsOf(edges: seq<Edge>, kind: EdgeKind, t: string)
    ensures t in Targets(edges, kind) <==> (kind, t) in edges
  {
    if edges != [] {
      TargetsOf(edges[1..], kind, t);
      assert edges == [edges[0]] + edges[1..];
    }
  }

  /** Main result: in a valid graph the reviews of a target are found by their edge
      as well as by their field, there is one such edge, and its other end is what
      the target claims to be. */
  lemma ReviewsByEdge<G, D, Op>(e: Engine<G, D, Op>, c: Contents<G, D, Op>, u: string, t: string)
    requires GraphValid(e, c) && u in c.nodes && c.nodes[u].Review?
    ensures (Reviews, t) in c.nodes[u].edges <==> t == c.nodes[u].target.uid
    ensures c.nodes[u].target.RequirementTarget? ==> c.nodes[u].target.uid in c.nodes && c.nodes[c.nodes[u].target.uid].Requirement?
    ensures c.nodes[u].target.RequirementTarget? <==> c.nodes[u].target.uid !in c.patches
    ensures c.nodes[u].schema == 1
  {
    hide EdgesResolve, PatchesBound;
    assert ReviewCoherent(c, c.nodes[u]);
    TargetsOf(c.nodes[u].edges, Reviews, t);
  }

  /** A valid patch was recorded against the committed graph of a revision on
      record. */
  lemma PatchesAreBound<G, D, Op>(e: Engine<G, D, Op>, c: Contents<G, D, Op>, u: string)
    requires GraphValid(e, c) && u in c.patches
    ensures var p := c.patches[u];
            && (exists r :: r in c.nodes && c.nodes[r].SourceRevision? && c.nodes[r].uid == p.revision)
            && p.preDigest == e.digest(if p.revision in c.sourceGraphs then c.sourceGraphs[p.revision] else e.emptyGraph)
  {
    hide EdgesResolve, ReviewCoherent;
  }

  // ------------------------------------------------------ what validity comes to

  /** The edge joins a source and a target of the kinds it calls for: derivation and
      verification lead to a requirement, a review to a requirement or a patch, and
      supersession stays among reviews or among source revisions. */
  ghost predicate Joins<G, D, Op>(c: Contents<G, D, Op>, n: Node, edge: Edge) {
    var (kind, t) := edge;
    match kind
    case DerivesFrom => n.Requirement? && t in c.nodes && c.nodes[t].Requirement?
    case Verifies => n.Test? && t in c.nodes && c.nodes[t].Requirement?
    case Reviews => n.Review? && if t in c.nodes then c.nodes[t].Requirement? else t in c.patches
    case Supersedes => t in c.nodes && if n.Review? then c.nodes[t].Review? else n.SourceRevision? && c.nodes[t].SourceRevision?
  }

  /** One `Reviews` edge, at this position. */
  ghost predicate OnlyReviewsEdge(edges: seq<Edge>, i: nat, t: string) {
    i < |edges| && edges[i] == (Reviews, t) && forall j :: 0 <= j < |edges| && edges[j].0 == Reviews ==> j == i
  }

  /** The review has one `Reviews` edge, to what its target names, in the supported
      schema. */
  ghost predicate Anchored<G, D, Op>(c: Contents<G, D, Op>, n: Node)
    requires n.Review?
  {
    && (exists i: nat :: OnlyReviewsEdge(n.edges, i, n.target.uid))
    && (match n.target
        case RequirementTarget(t) => t !in c.patches && t in c.nodes && c.nodes[t].Requirement?
        case PatchTarget(t) => t in c.patches)
    && n.schema == 1
  }

  ghost predicate BoundPatch<G, D, Op>(e: Engine<G, D, Op>, c: Contents<G, D, Op>, p: Patch<D, Op>) {
    && (exists r :: r in c.nodes && c.nodes[r].SourceRevision? && c.nodes[r].uid == p.revision)
    && p.preDigest == e.digest(if p.revision in c.sourceGraphs then c.sourceGraphs[p.revision] else e.emptyGraph)
  }

  lemma {:induction false} NoTargets(edges: seq<Edge>, kind: EdgeKind)
    ensures Targets(edges, kind) == [] <==> forall j :: 0 <= j < |edges| ==> edges[j].0 != kind
  {
    if edges != [] {
      NoTargets(edges[1..], kind);
      assert forall j :: 0 <= j < |edges[1..]| ==> edges[1..][j] == edges[j + 1];
    }
  }

  lemma {:induction false} OneTarget(edges: seq<Edge>, t: string)
    ensures Targets(edges, Reviews) == [t] <==> exists i: nat :: OnlyReviewsEdge(edges, i, t)
  {
    if edges != [] {
      var rest := edges[1..];
      assert forall j :: 0 <= j < |rest| ==> rest[j] == edges[j + 1];
      if edges[0].0 == Reviews {
        NoTargets(rest, Reviews);
        if Targets(edges, Reviews) == [t] {
          assert Targets(edges, Reviews) == [edges[0].1] + Targets(rest, Reviews);
          assert [t][0] == edges[0].1 && |Targets(rest, Reviews)| == 0;
          assert OnlyReviewsEdge(edges, 0, t);
        }
        if i: nat :| OnlyReviewsEdge(edges, i, t) {
          assert edges[0].0 == Reviews;
        }
      } else {
        OneTarget(rest, t);
        if i: nat :| OnlyReviewsEdge(rest, i, t) {
          assert OnlyReviewsEdge(edges, i + 1, t);
        }
        if i: nat :| OnlyReviewsEdge(edges, i, t) {
          assert OnlyReviewsEdge(rest, i - 1, t);
        }
      }
    }
  }

  lemma JoinsExactly<G, D, Op>(c: Contents<G, D, Op>)
    ensures EdgesResolve(c) <==> forall u, edge :: u in c.nodes && edge in c.nodes[u].edges ==> Joins(c, c.nodes[u], edge)
  {
    forall u, edge | u in c.nodes && edge in c.nodes[u].edges
      ensures Joins(c, c.nodes[u], edge) <==>
        if edge.1 in c.nodes then KindsMatch(Kind(c.nodes[u]), edge.0, Kind(c.nodes[edge.1]))
        else c.nodes[u].Review? && edge.0.Reviews? && edge.1 in c.patches
    {
    }
  }

  /** Main result: a graph is valid exactly when every edge joins what it should, every
      review is anchored at its target, every patch is bound to a committed graph, and
      the remaining checks agree. */
  lemma ValidExactly<G, D, Op>(e: Engine<G, D, Op>, c: Contents<G, D, Op>)
    ensures GraphValid(e, c) <==>
      && (forall u, edge :: u in c.nodes && edge in c.nodes[u].edges ==> Joins(c, c.nodes[u], edge))
      && (forall u :: u in c.nodes && c.nodes[u].Review? ==> Anchored(c, c.nodes[u]))
      && (forall u :: u in c.patches ==> BoundPatch(e, c, c.patches[u]))
      && e.otherChecks(c)
  {
    JoinsExactly(c);
    forall u | u in c.nodes && c.nodes[u].Review? ensures Anchored(c, c.nodes[u]) <==> ReviewCoherent(c, c.nodes[u]) {
      OneTarget(c.nodes[u].edges, c.nodes[u].target.uid);
    }
    hide EdgesResolve, Joins, Anchored, ReviewCoherent;
  }
}
