/** Whole-graph validity and the review lifecycle (`corpus/lifecycle.rs`,
    `corpus/patch_lifecycle.rs`): which requirements and patches count as
    approved. */
module Lifecycle {
  import opened Ordering
  import opened Wrappers
  import opened Corpus
  import opened SourcePatch

  datatype State = Candidate | Approved | Rejected | Stale

  datatype LifecycleError = InvalidGraph | RequirementMissing(uid: string)

  // -------------------------------------------------------------- validity

  predicate KindsMatch(source: NodeKind, edge: EdgeKind, target: NodeKind) {
    match edge
    case DerivesFrom => source.RequirementKind? && target.RequirementKind?
    case Verifies => source.TestKind? && target.RequirementKind?
    case Reviews => source.ReviewKind? && target.RequirementKind?
    case Supersedes => (source.ReviewKind? && target.ReviewKind?) || (source.SourceRevisionKind? && target.SourceRevisionKind?)
  }

  predicate EdgesResolve<G, D, Op>(c: Contents<G, D, Op>) {
    forall u, e :: u in c.nodes && e in c.nodes[u].edges ==>
      if e.1 in c.nodes then KindsMatch(Kind(c.nodes[u]), e.0, Kind(c.nodes[e.1]))
      else c.nodes[u].Review? && e.0.Reviews? && e.1 in c.patches
  }

  function Targets(edges: seq<Edge>, kind: EdgeKind): seq<string> {
    if edges == [] then []
    else (if edges[0].0 == kind then [edges[0].1] else []) + Targets(edges[1..], kind)
  }

  predicate ReviewCoherent<G, D, Op>(c: Contents<G, D, Op>, n: Node)
    requires n.Review?
  {
    && Targets(n.edges, Reviews) == [n.target.uid]
    && (match n.target
        case RequirementTarget(uid) => uid !in c.patches && uid in c.nodes && c.nodes[uid].Requirement?
        case PatchTarget(uid) => uid in c.patches)
    && n.schema == SUPPORTED_REVIEW_CONTENT_SCHEMA
  }

  predicate KnownRevision<G, D, Op>(c: Contents<G, D, Op>, revision: string) {
    exists u :: u in c.nodes && c.nodes[u].SourceRevision? && c.nodes[u].uid == revision
  }

  /** The committed parser graph of a revision; empty when none has loaded. */
  function ParserGraph<G, D, Op>(e: Engine<G, D, Op>, c: Contents<G, D, Op>, revision: string): G {
    if revision in c.sourceGraphs then c.sourceGraphs[revision] else e.emptyGraph
  }

  predicate PatchesBound<G, D(==), Op>(e: Engine<G, D, Op>, c: Contents<G, D, Op>) {
    forall u :: u in c.patches ==>
      KnownRevision(c, c.patches[u].revision) && e.digest(ParserGraph(e, c, c.patches[u].revision)) == c.patches[u].preDigest
  }

  predicate GraphValid<G, D(==), Op>(e: Engine<G, D, Op>, c: Contents<G, D, Op>) {
    && EdgesResolve(c)
    && (forall u :: u in c.nodes && c.nodes[u].Review? ==> ReviewCoherent(c, c.nodes[u]))
    && PatchesBound(e, c)
    && e.otherChecks(c)
  }

  /** What the insert methods establish. */
  ghost predicate WellFormed<G, D, Op>(c: Contents<G, D, Op>) {
    WellKeyed(c.nodes) && WellKeyedPatches(c.patches)
  }

  // ------------------------------------------------------------- lifecycle

  function Superseded(nodes: map<string, Node>): set<string> {
    set u, e | u in nodes && nodes[u].Review? && e in nodes[u].edges && e.0 == Supersedes :: e.1
  }

  /** A review of `target` that no review supersedes. */
  predicate IsHead(nodes: map<string, Node>, target: ReviewTarget, u: string) {
    u in nodes && nodes[u].Review? && nodes[u].target == target && nodes[u].uid !in Superseded(nodes)
  }

  /** Some review carries a `Supersedes` edge to `uid`. */
  ghost predicate IsSuperseded(nodes: map<string, Node>, uid: string) {
    exists v :: v in nodes && nodes[v].Review? && (Supersedes, uid) in nodes[v].edges
  }

  /** `n` is a review of `target` on record, and no review supersedes it. */
  ghost predicate Effective(nodes: map<string, Node>, target: ReviewTarget, n: Node) {
    && (exists u :: u in nodes && nodes[u] == n)
    && n.Review? && n.target == target && !IsSuperseded(nodes, n.uid)
  }

  lemma SupersededExactly(nodes: map<string, Node>, uid: string)
    ensures uid in Superseded(nodes) <==> IsSuperseded(nodes, uid)
  {
    if v :| v in nodes && nodes[v].Review? && (Supersedes, uid) in nodes[v].edges {
      var e := (Supersedes, uid);
      assert e in nodes[v].edges && e.0 == Supersedes && e.1 == uid;
    }
  }

  lemma EffectiveExactly(nodes: map<string, Node>, target: ReviewTarget, n: Node)
    ensures Effective(nodes, target, n) <==> exists u :: u in nodes && IsHead(nodes, target, u) && nodes[u] == n
  {
    hide Superseded, IsSuperseded;
    SupersededExactly(nodes, n.uid);
    if Effective(nodes, target, n) {
      var u :| u in nodes && nodes[u] == n;
      assert IsHead(nodes, target, u);
    }
  }

  predicate Decides(n: Node, decision: Decision, digest: string)
    requires n.Review?
  {
    n.decision == decision && n.reviewedDigest == digest
  }

  /** A current rejection beats a current approval, which beats an approval of
      older content. */
  function StateOf(nodes: map<string, Node>, target: ReviewTarget, digest: string): State {
    if exists u :: u in nodes && IsHead(nodes, target, u) && Decides(nodes[u], Reject, digest) then Rejected
    else if exists u :: u in nodes && IsHead(nodes, target, u) && Decides(nodes[u], Approve, digest) then Approved
    else if exists u :: u in nodes && IsHead(nodes, target, u) && nodes[u].decision == Approve then Stale
    else Candidate
  }

  function RequirementState<G, D, Op>(e: Engine<G, D, Op>, nodes: map<string, Node>, u: string): State
    requires u in nodes
  {
    StateOf(nodes, RequirementTarget(u), e.requirementDigest(nodes[u]))
  }

  function PatchState<G, D, Op>(c: Contents<G, D, Op>, u: string): State
    requires u in c.patches
  {
    StateOf(c.nodes, PatchTarget(u), c.patches[u].contentDigest)
  }

  /** The heads of a target in uid order, from which the state is derived: its
      reviews that no review supersedes. */
  method Heads(nodes: map<string, Node>, target: ReviewTarget) returns (heads: seq<Node>)
    ensures forall n :: n in heads <==> Effective(nodes, target, n)
    ensures forall n :: n in heads ==> n.Review?
  {
    hide Effective, Superseded;
    forall n ensures Effective(nodes, target, n) <==> exists u :: u in nodes && IsHead(nodes, target, u) && nodes[u] == n {
      EffectiveExactly(nodes, target, n);
    }
    StringOrder();
    InOrderFacts(StringLeq, nodes.Keys);
    var keys := KeysInOrder(nodes);
    heads := [];
    var i := 0;
    while i < |keys|
      invariant 0 <= i <= |keys|
      invariant forall n :: n in heads <==> exists j :: 0 <= j < i && IsHead(nodes, target, keys[j]) && nodes[keys[j]] == n
    {
      if IsHead(nodes, target, keys[i]) {
        heads := heads + [nodes[keys[i]]];
      }
      i := i + 1;
    }
  }

  predicate AllReviews(heads: seq<Node>) { forall n :: n in heads ==> n.Review? }

  predicate SomeDecides(heads: seq<Node>, decision: Decision, digest: string)
    requires AllReviews(heads)
  {
    exists n :: n in heads && Decides(n, decision, digest)
  }

  method DeriveState(heads: seq<Node>, digest: string) returns (r: State)
    requires AllReviews(heads)
    ensures r == Rejected <==> SomeDecides(heads, Reject, digest)
    ensures r == Approved <==> !SomeDecides(heads, Reject, digest) && SomeDecides(heads, Approve, digest)
    ensures r == Candidate <==> !SomeDecides(heads, Reject, digest) && forall n :: n in heads ==> n.decision == Reject
  {
    var currentRejection, currentApproval, olderApproval := false, false, false;
    var i := 0;
    while i < |heads|
      invariant 0 <= i <= |heads|
      invariant currentRejection <==> SomeDecides(heads[..i], Reject, digest)
      invariant currentApproval <==> SomeDecides(heads[..i], Approve, digest)
      invariant olderApproval <==> exists n :: n in heads[..i] && n.decision == Approve && n.reviewedDigest != digest
    {
      assert heads[..i + 1] == heads[..i] + [heads[i]];
      var n := heads[i];
      assert n in heads;
      var current := n.reviewedDigest == digest;
      match n.decision {
        case Reject => if current { currentRejection := true; assert Decides(n, Reject, digest); }
        case Approve => if current { currentApproval := true; assert Decides(n, Approve, digest); } else { olderApproval := true; }
      }
      i := i + 1;
    }
    assert heads[..i] == heads;
    r := if currentRejection then Rejected else if currentApproval then Approved else if olderApproval then Stale else Candidate;
  }

  method Evaluate(nodes: map<string, Node>, target: ReviewTarget, digest: string) returns (r: State)
    ensures r == StateOf(nodes, target, digest)
  {
    hide IsHead, Effective;
    var heads := Heads(nodes, target);
    forall n ensures Effective(nodes, target, n) <==> exists u :: u in nodes && IsHead(nodes, target, u) && nodes[u] == n {
      EffectiveExactly(nodes, target, n);
    }
    r := DeriveState(heads, digest);
    HeadsDecide(heads, Reject, digest, nodes, target);
    HeadsDecide(heads, Approve, digest, nodes, target);
    HeadsApprove(heads, nodes, target);
  }

  lemma HeadsDecide(heads: seq<Node>, d: Decision, digest: string, nodes: map<string, Node>, target: ReviewTarget)
    requires AllReviews(heads)
    requires forall n :: n in heads <==> exists u :: u in nodes && IsHead(nodes, target, u) && nodes[u] == n
    ensures SomeDecides(heads, d, digest) <==> exists u :: u in nodes && IsHead(nodes, target, u) && Decides(nodes[u], d, digest)
  {
    if u :| u in nodes && IsHead(nodes, target, u) && Decides(nodes[u], d, digest) {
      assert nodes[u] in heads;
    }
  }

  lemma HeadsApprove(heads: seq<Node>, nodes: map<string, Node>, target: ReviewTarget)
    requires AllReviews(heads)
    requires forall n :: n in heads <==> exists u :: u in nodes && IsHead(nodes, target, u) && nodes[u] == n
    ensures (exists n :: n in heads && n.decision == Approve) <==> exists u :: u in nodes && IsHead(nodes, target, u) && nodes[u].decision == Approve
  {
    if u :| u in nodes && IsHead(nodes, target, u) && nodes[u].decision == Approve {
      assert nodes[u] in heads;
    }
  }

  function Evaluations<G, D(==), Op>(e: Engine<G, D, Op>, c: Contents<G, D, Op>): Result<map<string, State>, LifecycleError> {
    if !GraphValid(e, c) then Failure(InvalidGraph)
    else Success(map u | u in c.nodes && c.nodes[u].Requirement? :: RequirementState(e, c.nodes, u))
  }

  function PatchEvaluations<G, D(==), Op>(e: Engine<G, D, Op>, c: Contents<G, D, Op>): Result<map<string, State>, LifecycleError> {
    if !GraphValid(e, c) then Failure(InvalidGraph)
    else Success(map u | u in c.patches :: PatchState(c, u))
  }

  // ------------------------------------------------- one more review

  lemma SupersededUnchanged(nodes: map<string, Node>, n: Node)
    requires n.uid !in nodes && (n.Review? ==> forall k :: k in n.edges ==> k.0 != Supersedes)
    ensures Superseded(nodes[n.uid := n]) == Superseded(nodes)
  {
    var more := nodes[n.uid := n];
    forall s | s in Superseded(nodes) ensures s in Superseded(more) {
      var u, e :| u in nodes && nodes[u].Review? && e in nodes[u].edges && e.0 == Supersedes && e.1 == s;
      assert u in more && more[u] == nodes[u];
    }
  }

  lemma HeadsUnchanged(nodes: map<string, Node>, n: Node, target: ReviewTarget)
    requires n.uid !in nodes && (n.Review? ==> forall k :: k in n.edges ==> k.0 != Supersedes)
    ensures forall u :: u in nodes ==> IsHead(nodes[n.uid := n], target, u) == IsHead(nodes, target, u)
  {
    SupersededUnchanged(nodes, n);
  }

  /** Adding an approving review that supersedes nothing never withdraws an
      approval, of any requirement or patch. */
  lemma ApprovalIsMonotone(nodes: map<string, Node>, n: Node, target: ReviewTarget, digest: string)
    requires n.uid !in nodes && n.Review? && n.decision == Approve && forall k :: k in n.edges ==> k.0 != Supersedes
    requires StateOf(nodes, target, digest) == Approved
    ensures StateOf(nodes[n.uid := n], target, digest) == Approved
  {
    HeadsUnchanged(nodes, n, target);
    var more := nodes[n.uid := n];
    var u :| u in nodes && IsHead(nodes, target, u) && Decides(nodes[u], Approve, digest);
    assert u in more && IsHead(more, target, u) && Decides(more[u], Approve, digest);
  }

  /** A node that is not a review changes no state. */
  lemma OnlyReviewsDecide(nodes: map<string, Node>, n: Node, target: ReviewTarget, digest: string)
    requires n.uid !in nodes && !n.Review?
    ensures StateOf(nodes[n.uid := n], target, digest) == StateOf(nodes, target, digest)
  {
    HeadsUnchanged(nodes, n, target);
    var more := nodes[n.uid := n];
    assert forall u :: u in more && IsHead(more, target, u) ==> u in nodes && more[u] == nodes[u];
    assert forall u :: u in nodes && IsHead(nodes, target, u) ==> u in more && IsHead(more, target, u) && more[u] == nodes[u];
  }
}
