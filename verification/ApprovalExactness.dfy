/** What the approval gate decides: exactly one report entry per unapproved
    claim, and nothing else. */
module ApprovalExactness {
  import opened Ordering
  import opened Wrappers
  import opened Corpus
  import opened SourcePatch
  import opened Lifecycle
  import opened ApprovalBoundary

  /** The artifact lays claim to the requirement: a test verifies it, or its own
      trace metadata names modules or diagnostics. */
  ghost predicate ClaimedBy<G, D, Op>(c: Contents<G, D, Op>, requirement: string, referring: Referring) {
    match referring
    case TestRef(t, id) =>
      t in c.nodes && c.nodes[t].Test? && c.nodes[t].id == id && (Verifies, requirement) in c.nodes[t].edges
    case ImplementationModules(m) =>
      m != [] && requirement in c.metadata && c.metadata[requirement].RequirementTrace? && c.metadata[requirement].modules == m
    case EmittedDiagnostics(codes) =>
      codes != [] && requirement in c.metadata && c.metadata[requirement].RequirementTrace? && c.metadata[requirement].emits == codes
  }

  ghost predicate IsViolation<G, D, Op>(e: Engine<G, D, Op>, c: Contents<G, D, Op>, v: Violation) {
    && v.requirementUid in c.nodes
    && c.nodes[v.requirementUid].Requirement?
    && v.requirementId == c.nodes[v.requirementUid].id
    && v.state == RequirementState(e, c.nodes, v.requirementUid)
    && v.state != Approved
    && ClaimedBy(c, v.requirementUid, v.referring)
  }

  // ---------------------------------------------- the scan without its errors

  function EdgeViolations(nodes: map<string, Node>, evals: Evals, test: Node, edges: seq<Edge>): seq<Violation> {
    if edges == [] then []
    else
      var (kind, target) := edges[0];
      (if kind == Verifies && target in nodes && target in evals && evals[target] != Approved
       then [TestViolation(nodes, evals, test, target)] else []) +
      EdgeViolations(nodes, evals, test, edges[1..])
  }

  function NodeViolations<G, D, Op>(c: Contents<G, D, Op>, evals: Evals, n: Node): seq<Violation> {
    match n
    case Test(_, _, edges) => EdgeViolations(c.nodes, evals, n, edges)
    case Requirement(uid, _, _, _) => if uid in evals && evals[uid] != Approved then Claims(c.metadata, n, evals[uid]) else []
    case Review(_, _, _, _, _, _, _) => []
    case SourceRevision(_, _, _, _) => []
  }

  function AllViolations<G, D, Op>(c: Contents<G, D, Op>, evals: Evals, keys: seq<string>): seq<Violation>
    requires forall k :: k in keys ==> k in c.nodes
  {
    if keys == [] then [] else NodeViolations(c, evals, c.nodes[keys[0]]) + AllViolations(c, evals, keys[1..])
  }

  /** Every `Verifies` edge of a test meets an evaluated requirement, and every
      requirement is evaluated: what validation and evaluation guarantee. */
  ghost predicate Covered<G, D, Op>(c: Contents<G, D, Op>, evals: Evals) {
    && (forall u :: u in evals <==> u in c.nodes && c.nodes[u].Requirement?)
    && (forall u, e :: u in c.nodes && c.nodes[u].Test? && e in c.nodes[u].edges && e.0 == Verifies ==> e.1 in evals)
  }

  lemma {:induction false} ScanEdgesPure<G, D, Op>(c: Contents<G, D, Op>, evals: Evals, test: Node, edges: seq<Edge>, acc: seq<Violation>)
    requires forall e :: e in edges && e.0 == Verifies ==> e.1 in evals && e.1 in c.nodes
    ensures ScanEdges(c.nodes, evals, test, edges, acc) == Success(acc + EdgeViolations(c.nodes, evals, test, edges))
    decreases |edges|
  {
    if edges == [] {
      assert acc + [] == acc;
    } else {
      var t := edges[0].1;
      var own := if edges[0].0 == Verifies && evals[t] != Approved then [TestViolation(c.nodes, evals, test, t)] else [];
      assert edges == [edges[0]] + edges[1..];
      ScanEdgesPure(c, evals, test, edges[1..], acc + own);
      assert acc + [] == acc;
      var rest := EdgeViolations(c.nodes, evals, test, edges[1..]);
      assert acc + own + rest == acc + (own + rest);
      assert own + rest == EdgeViolations(c.nodes, evals, test, edges) by { assert edges[0] == (edges[0].0, t); }
    }
  }

  lemma {:induction false} ScanNodesPure<G, D, Op>(c: Contents<G, D, Op>, evals: Evals, keys: seq<string>, acc: seq<Violation>)
    requires WellKeyed(c.nodes) && Covered(c, evals)
    requires forall k :: k in keys ==> k in c.nodes
    ensures ScanNodes(c, evals, keys, acc) == Success(acc + AllViolations(c, evals, keys))
    decreases |keys|
  {
    hide Claims, EdgeViolations, ScanEdges, KindAndId, StrictlySorted;
    if keys == [] {
      assert acc + [] == acc;
    } else {
      var n := c.nodes[keys[0]];
      assert keys[0] in keys && n.uid == keys[0];
      if n.Test? {
        ScanEdgesPure(c, evals, n, n.edges, acc);
      }
      assert acc + [] == acc;
      var more := acc + NodeViolations(c, evals, n);
      assert ScanNode(c, evals, n, acc) == Success(more);
      ScanNodesPure(c, evals, keys[1..], more);
      assert more + AllViolations(c, evals, keys[1..]) == acc + (NodeViolations(c, evals, n) + AllViolations(c, evals, keys[1..]));
    }
  }

  // --------------------------------------------------------------- contents

  predicate Gated(nodes: map<string, Node>, evals: Evals, target: string) {
    target in nodes && target in evals && evals[target] != Approved
  }

  lemma {:induction false} EdgeViolationsElements(nodes: map<string, Node>, evals: Evals, test: Node, edges: seq<Edge>, v: Violation)
    ensures v in EdgeViolations(nodes, evals, test, edges) <==>
            var t := v.requirementUid; (Verifies, t) in edges && Gated(nodes, evals, t) && v == TestViolation(nodes, evals, test, t)
    decreases |edges|
  {
    if edges != [] {
      var rest := edges[1..];
      assert edges == [edges[0]] + rest;
      EdgeViolationsElements(nodes, evals, test, rest, v);
      assert edges[0] == (edges[0].0, edges[0].1);
    }
  }

  lemma {:induction false} EdgeViolationsFacts(nodes: map<string, Node>, evals: Evals, test: Node, edges: seq<Edge>)
    requires StrictlySorted(EdgeLeq, edges)
    ensures forall v :: v in EdgeViolations(nodes, evals, test, edges) <==>
            var t := v.requirementUid; (Verifies, t) in edges && Gated(nodes, evals, t) && v == TestViolation(nodes, evals, test, t)
    ensures DistinctKeys(KeyOf, EdgeViolations(nodes, evals, test, edges))
    decreases |edges|
  {
    hide EdgeLeq, TestViolation, Gated;
    forall v { EdgeViolationsElements(nodes, evals, test, edges, v); }
    if edges != [] {
      var rest := edges[1..];
      assert edges == [edges[0]] + rest;
      assert forall i :: 0 <= i < |rest| ==> rest[i] == edges[i + 1];
      EdgeViolationsFacts(nodes, evals, test, rest);
      var tail := EdgeViolations(nodes, evals, test, rest);
      if EdgeViolations(nodes, evals, test, edges) != tail {
        var own := EdgeViolations(nodes, evals, test, edges)[0];
        assert EdgeViolations(nodes, evals, test, edges) == [own] + tail;
        OwnTarget(nodes, evals, test, edges);
        assert edges[0] !in rest;
        DistinctConcat(KeyOf, [own], tail);
      }
    }
  }

  lemma OwnTarget(nodes: map<string, Node>, evals: Evals, test: Node, edges: seq<Edge>)
    requires edges != []
    ensures var all, tail := EdgeViolations(nodes, evals, test, edges), EdgeViolations(nodes, evals, test, edges[1..]);
            all == tail || (all == [all[0]] + tail && edges[0] == (Verifies, all[0].requirementUid))
  {
  }

  lemma ClaimsFacts(metadata: map<string, TraceMetadata>, n: Node, state: State)
    ensures DistinctKeys(KeyOf, Claims(metadata, n, state))
    ensures forall v :: v in Claims(metadata, n, state) ==> v.requirementUid == n.uid && !v.referring.TestRef?
  {
  }

  /** The node that a violation was found at. */
  function Origin(v: Violation): string {
    match v.referring
    case TestRef(t, _) => t
    case ImplementationModules(_) => v.requirementUid
    case EmittedDiagnostics(_) => v.requirementUid
  }

  lemma NodeViolationsFacts<G, D, Op>(c: Contents<G, D, Op>, evals: Evals, u: string)
    requires WellKeyed(c.nodes) && u in c.nodes
    ensures DistinctKeys(KeyOf, NodeViolations(c, evals, c.nodes[u]))
    ensures forall v :: v in NodeViolations(c, evals, c.nodes[u]) ==> Origin(v) == u
  {
    hide EdgeViolations, Claims, EdgeLeq;
    var n := c.nodes[u];
    match n {
      case Test(_, _, edges) => EdgeViolationsFacts(c.nodes, evals, n, edges);
      case Requirement(uid, _, _, _) => if uid in evals { ClaimsFacts(c.metadata, n, evals[uid]); }
      case Review(_, _, _, _, _, _, _) =>
      case SourceRevision(_, _, _, _) =>
    }
  }

  lemma DistinctConcat<T, K>(key: T -> K, s: seq<T>, t: seq<T>)
    requires DistinctKeys(key, s) && DistinctKeys(key, t)
    requires forall x, y :: x in s && y in t ==> key(x) != key(y)
    ensures DistinctKeys(key, s + t)
  {
    forall i, j | 0 <= i < j < |s + t| ensures key((s + t)[i]) != key((s + t)[j]) {
      if j < |s| {
      } else if i >= |s| {
        assert (s + t)[i] == t[i - |s|] && (s + t)[j] == t[j - |s|];
      } else {
        assert (s + t)[i] in s && (s + t)[j] in t;
      }
    }
  }

  lemma {:induction false} AllViolationsFacts<G, D, Op>(c: Contents<G, D, Op>, evals: Evals, keys: seq<string>)
    requires WellKeyed(c.nodes)
    requires forall k :: k in keys ==> k in c.nodes
    requires forall i, j :: 0 <= i < j < |keys| ==> keys[i] != keys[j]
    ensures forall v :: v in AllViolations(c, evals, keys) <==> Origin(v) in keys && v in NodeViolations(c, evals, c.nodes[Origin(v)])
    ensures DistinctKeys(KeyOf, AllViolations(c, evals, keys))
    decreases |keys|
  {
    hide NodeViolations, WellKeyed, Origin;
    if keys != [] {
      var rest := keys[1..];
      assert keys == [keys[0]] + rest;
      assert keys[0] !in rest;
      AllViolationsFacts(c, evals, rest);
      NodeViolationsFacts(c, evals, keys[0]);
      var a, b := NodeViolations(c, evals, c.nodes[keys[0]]), AllViolations(c, evals, rest);
      forall x, y | x in a && y in b ensures KeyOf(x) != KeyOf(y) {
        assert Origin(x) == keys[0] && Origin(y) in rest;
        SameKeySameOrigin(x, y);
      }
      DistinctConcat(KeyOf, a, b);
    }
  }

  lemma SameKeySameOrigin(x: Violation, y: Violation)
    ensures KeyOf(x) == KeyOf(y) ==> Origin(x) == Origin(y)
  {
  }

  lemma EvaluationsCover<G, D, Op>(e: Engine<G, D, Op>, c: Contents<G, D, Op>)
    requires GraphValid(e, c)
    ensures Evaluations(e, c).Success? && Covered(c, Evaluations(e, c).value)
    ensures forall u :: u in Evaluations(e, c).value ==> Evaluations(e, c).value[u] == RequirementState(e, c.nodes, u)
  {
    hide StateOf, PatchesBound, ReviewCoherent;
    var evals := Evaluations(e, c).value;
    forall u, k | u in c.nodes && c.nodes[u].Test? && k in c.nodes[u].edges && k.0 == Verifies ensures k.1 in evals {
      assert KindsMatch(Kind(c.nodes[u]), k.0, Kind(c.nodes[k.1]));
    }
  }

  lemma ViolationsAreReal<G, D, Op>(e: Engine<G, D, Op>, c: Contents<G, D, Op>, evals: Evals, v: Violation)
    requires WellKeyed(c.nodes) && Covered(c, evals)
    requires forall u :: u in evals ==> u in c.nodes && evals[u] == RequirementState(e, c.nodes, u)
    ensures Origin(v) in c.nodes && v in NodeViolations(c, evals, c.nodes[Origin(v)]) <==> IsViolation(e, c, v)
  {
    hide EdgeViolations, StateOf, RequirementState, EdgeLeq;
    var o := Origin(v);
    if o in c.nodes {
      var n := c.nodes[o];
      if n.Test? {
        EdgeViolationsFacts(c.nodes, evals, n, n.edges);
      }
    }
  }

  // ---------------------------------------------------------------- theorems

  /** The scan of a valid graph never meets its defensive errors, and finds each
      unapproved claim once. */
  lemma ScanExact<G, D, Op>(e: Engine<G, D, Op>, c: Contents<G, D, Op>)
    requires WellFormed(c) && GraphValid(e, c)
    ensures var r := Scan(c, Evaluations(e, c).value);
            r.Success? && DistinctKeys(KeyOf, r.value) && forall v :: v in r.value <==> IsViolation(e, c, v)
  {
    hide NodeViolations, AllViolations, IsViolation, Covered, StateOf, GraphValid, WellKeyed, InOrder, StringLeq, ScanNodes, Origin, Evaluations;
    EvaluationsCover(e, c);
    var evals := Evaluations(e, c).value;
    StringOrder();
    InOrderFacts(StringLeq, c.nodes.Keys);
    var keys := InOrder(StringLeq, c.nodes.Keys);
    ScanNodesPure(c, evals, keys, []);
    AllViolationsFacts(c, evals, keys);
    CoveredInNodes(c, evals);
    forall v ensures v in AllViolations(c, evals, keys) <==> IsViolation(e, c, v) {
      ViolationsAreReal(e, c, evals, v);
    }
    assert [] + AllViolations(c, evals, keys) == AllViolations(c, evals, keys);
  }

  lemma CoveredInNodes<G, D, Op>(c: Contents<G, D, Op>, evals: Evals)
    requires Covered(c, evals)
    ensures forall u :: u in evals ==> u in c.nodes
  {
  }

  /** The gate rejects claims exactly when some claim is unapproved, and then
      reports exactly the unapproved claims, once each, sorted by requirement
      and then by the artifact that makes the claim. */
  lemma ReportExact<G, D, Op>(e: Engine<G, D, Op>, c: Contents<G, D, Op>)
    requires WellFormed(c) && GraphValid(e, c)
    ensures Gate(e, c).Failure? && Gate(e, c).error.Violations? <==> exists v :: IsViolation(e, c, v)
    ensures Gate(e, c).Failure? && Gate(e, c).error.Violations? ==>
              var vs := Gate(e, c).error.violations;
              SortedBy(KeyOf, KeyLeq, vs) && DistinctKeys(KeyOf, vs) && forall v :: v in vs <==> IsViolation(e, c, v)
    ensures (forall v :: !IsViolation(e, c, v)) ==> Gate(e, c) == CuratedContent(e, c)
  {
    hide IsViolation, Scan, StateOf, GraphValid, SortBy, KeyLeq, CuratedContent, SortedBy;
    ScanExact(e, c);
    CuratedContentErrors(e, c);
    var found := Scan(c, Evaluations(e, c).value).value;
    KeyOrder();
    SortByFacts(KeyOf, KeyLeq, found);
    DistinctKeysPermute(KeyOf, found, SortBy(KeyOf, KeyLeq, found));
    PermutationElements(found, SortBy(KeyOf, KeyLeq, found));
    if found != [] { assert found[0] in found; }
  }

  // -------------------------------------------------------- the patch plane

  function MediaOf<G, D, Op>(c: Contents<G, D, Op>, revision: string): string {
    if revision in c.nodes && c.nodes[revision].SourceRevision? then c.nodes[revision].mediaType else ""
  }

  /** An approved patch that does not apply, alone, to its parser graph. */
  ghost predicate Unproducible<G, D, Op>(e: Engine<G, D, Op>, c: Contents<G, D, Op>, u: string) {
    && u in c.patches
    && PatchState(c, u) == Approved
    && AppliedAlone(e, c, c.patches[u], MediaOf(c, c.patches[u].revision)).Failure?
  }

  /** Main result: an approved patch is blamed exactly when its operations, all of
      them and in order, lead from the committed parser graph to no valid graph. On
      a valid corpus it is never blamed for a stale binding. */
  lemma UnproducibleExactly<G, D, Op>(e: Engine<G, D, Op>, c: Contents<G, D, Op>, u: string)
    requires GraphValid(e, c) && u in c.patches
    ensures var p := c.patches[u];
            var g, b, media := ParserGraph(e, c, p.revision), Bindings(p.recipeDigest, p.inputDigest), MediaOf(c, p.revision);
            Unproducible(e, c, u) <==> PatchState(c, u) == Approved && !exists gs, h :: Produces(e, g, p, b, media, gs, h)
    ensures Unproducible(e, c, u) ==>
              !AppliedAlone(e, c, c.patches[u], MediaOf(c, c.patches[u].revision)).error.StaleBinding?
  {
    hide EdgesResolve, ReviewCoherent, KnownRevision, PatchState, Produces, RunOperations;
    var p := c.patches[u];
    var g, b, media := ParserGraph(e, c, p.revision), Bindings(p.recipeDigest, p.inputDigest), MediaOf(c, p.revision);
    var r := Applied(e, g, p, b, media);
    RunExactly(e, p.revision, g, p.operations, g, "");
    AppliedExactly(e, g, p, b, media, if r.Success? then r.value else g, "");
    if gs, h :| Produces(e, g, p, b, media, gs, h) {
      AppliedExactly(e, g, p, b, media, h, "");
    }
    if r.Success? {
      var h: G := r.value;
      var gs: seq<G> :| Produces(e, g, p, b, media, gs, h);
      IsProduced(e, g, p, b, media, gs, h);
    }
  }

  lemma IsProduced<G, D, Op>(e: Engine<G, D, Op>, g: G, p: Patch<D, Op>, b: Bindings, media: string, gs: seq<G>, h: G)
    requires Produces(e, g, p, b, media, gs, h)
    ensures exists run, end :: Produces(e, g, p, b, media, run, end)
  {
  }

  lemma KnownRevisionKey<G, D, Op>(c: Contents<G, D, Op>, revision: string)
    requires WellKeyed(c.nodes)
    ensures KnownRevision(c, revision) <==> revision in c.nodes && c.nodes[revision].SourceRevision?
  {
    hide StrictlySorted, KindAndId;
    if revision in c.nodes && c.nodes[revision].SourceRevision? {
      assert c.nodes[revision].uid == revision;
    }
  }

  /** On a valid graph the defensive branches of the patch check are dead. */
  lemma PatchCheckExact<G, D, Op>(e: Engine<G, D, Op>, c: Contents<G, D, Op>, u: string)
    requires WellFormed(c) && GraphValid(e, c) && u in c.patches
    ensures PatchEvaluations(e, c).Success?
    ensures var r := PatchCheck(e, c, PatchEvaluations(e, c).value, u);
            if Unproducible(e, c, u)
            then r == Failure(EffectiveCuratedContent(u, AppliedAlone(e, c, c.patches[u], MediaOf(c, c.patches[u].revision)).error))
            else r == Success(())
  {
    hide StateOf, Applied, EdgesResolve, ReviewCoherent, StrictlySorted, KindAndId, WellKeyed;
    KnownRevisionKey(c, c.patches[u].revision);
    assert c.patches[u].uid == u;
  }

  lemma {:induction false} PatchChecksExact<G, D, Op>(e: Engine<G, D, Op>, c: Contents<G, D, Op>, keys: seq<string>)
    requires WellFormed(c) && GraphValid(e, c) && PatchEvaluations(e, c).Success?
    requires forall k :: k in keys ==> k in c.patches
    requires StrictlySorted(StringLeq, keys)
    ensures var r := PatchChecks(e, c, PatchEvaluations(e, c).value, keys);
            r.Success? <==> forall k :: k in keys ==> !Unproducible(e, c, k)
    ensures var r := PatchChecks(e, c, PatchEvaluations(e, c).value, keys);
            r.Failure? ==> r.error.EffectiveCuratedContent? && r.error.patchUid in keys && Unproducible(e, c, r.error.patchUid) &&
                           forall k :: k in keys && Unproducible(e, c, k) ==> StringLeq(r.error.patchUid, k)
    decreases |keys|
  {
    hide Unproducible, PatchCheck, WellFormed, GraphValid, StringLeq, PatchEvaluations, AppliedAlone;
    if keys != [] {
      assert keys == [keys[0]] + keys[1..];
      PatchCheckExact(e, c, keys[0]);
      StringOrder();
      assert StringLeq(keys[0], keys[0]);
      StrictTail(StringLeq, keys);
      PatchChecksExact(e, c, keys[1..]);
    }
  }

  lemma CuratedContentExact<G, D, Op>(e: Engine<G, D, Op>, c: Contents<G, D, Op>)
    requires WellFormed(c) && GraphValid(e, c)
    ensures CuratedContent(e, c).Success? <==> forall u :: !Unproducible(e, c, u)
    ensures var r := CuratedContent(e, c);
            r.Failure? ==> r.error.EffectiveCuratedContent? && Unproducible(e, c, r.error.patchUid) &&
                           forall u :: Unproducible(e, c, u) ==> StringLeq(r.error.patchUid, u)
  {
    hide WellFormed, GraphValid, StringLeq, InOrder, PatchState, AppliedAlone, PatchChecks;
    StringOrder();
    InOrderFacts(StringLeq, c.patches.Keys);
    PatchChecksExact(e, c, InOrder(StringLeq, c.patches.Keys));
  }

  /** The gate accepts exactly the valid graphs with no unapproved claim whose
      approved patches can all be produced. An invalid graph fails as such; the
      claims come before the patches; and the patch blamed is the first one, in
      uid order, that cannot be produced. */
  lemma GateExact<G, D, Op>(e: Engine<G, D, Op>, c: Contents<G, D, Op>)
    requires WellFormed(c)
    ensures Gate(e, c).Success? <==> GraphValid(e, c) && (forall v :: !IsViolation(e, c, v)) && forall u :: !Unproducible(e, c, u)
    ensures Gate(e, c) == Failure(LifecycleFailed(InvalidGraph)) <==> !GraphValid(e, c)
    ensures var r := Gate(e, c);
            r.Failure? && !r.error.Violations? && GraphValid(e, c) ==>
              r.error.EffectiveCuratedContent? && Unproducible(e, c, r.error.patchUid) &&
              forall u :: Unproducible(e, c, u) ==> StringLeq(r.error.patchUid, u)
  {
    hide WellFormed, GraphValid, StringLeq, IsViolation, Unproducible, CuratedContent, Scan, StateOf, SortBy, KeyLeq;
    if GraphValid(e, c) {
      ScanExact(e, c);
      CuratedContentExact(e, c);
      ReportExact(e, c);
      if v :| IsViolation(e, c, v) {
        assert v in Scan(c, Evaluations(e, c).value).value;
      }
    }
  }

  // ----------------------------------------------------------- monotonicity

  /** The same tests, requirements, revisions and trace metadata; reviews and
      patches may differ. */
  ghost predicate SameClaims<G, D, Op>(c: Contents<G, D, Op>, d: Contents<G, D, Op>) {
    && c.metadata == d.metadata
    && (forall u :: u in c.nodes && !c.nodes[u].Review? ==> u in d.nodes && d.nodes[u] == c.nodes[u])
    && (forall u :: u in d.nodes && !d.nodes[u].Review? ==> u in c.nodes && d.nodes[u] == c.nodes[u])
  }

  /** Approving more requirements never adds a violation: whatever is reported
      afterwards was reported before, for the same claim. */
  lemma MoreApprovalsNeverAdd<G, D, Op>(e: Engine<G, D, Op>, c: Contents<G, D, Op>, d: Contents<G, D, Op>, v: Violation)
    requires SameClaims(c, d)
    requires forall u :: u in c.nodes && c.nodes[u].Requirement? && RequirementState(e, c.nodes, u) == Approved ==> RequirementState(e, d.nodes, u) == Approved
    requires IsViolation(e, d, v)
    ensures v.requirementUid in c.nodes && IsViolation(e, c, v.(state := RequirementState(e, c.nodes, v.requirementUid)))
  {
    hide RequirementState;
    assert c.nodes[v.requirementUid] == d.nodes[v.requirementUid];
    if v.referring.TestRef? {
      assert d.nodes[v.referring.testUid] == c.nodes[v.referring.testUid];
    }
  }

  /** In particular, recording one more approving review adds none. */
  lemma ApprovingAddsNone<G, D, Op>(e: Engine<G, D, Op>, c: Contents<G, D, Op>, n: Node, v: Violation)
    requires n.uid !in c.nodes && n.Review? && n.decision == Approve && forall k :: k in n.edges ==> k.0 != Supersedes
    requires IsViolation(e, c.(nodes := c.nodes[n.uid := n]), v)
    ensures v.requirementUid in c.nodes && IsViolation(e, c, v.(state := RequirementState(e, c.nodes, v.requirementUid)))
  {
    hide IsViolation, StateOf;
    var d := c.(nodes := c.nodes[n.uid := n]);
    forall u | u in c.nodes && c.nodes[u].Requirement? && RequirementState(e, c.nodes, u) == Approved
      ensures RequirementState(e, d.nodes, u) == Approved
    {
      ApprovalIsMonotone(c.nodes, n, RequirementTarget(u), e.requirementDigest(c.nodes[u]));
    }
    MoreApprovalsNeverAdd(e, c, d, v);
  }

  /** Decomposition is never gated: a new requirement without claims of its own
      leaves the report as it was, whatever it derives from. */
  lemma DecompositionIsFree<G, D, Op>(e: Engine<G, D, Op>, c: Contents<G, D, Op>, n: Node, v: Violation)
    requires EdgesResolve(c) && n.Requirement? && n.uid !in c.nodes && n.uid !in c.metadata
    ensures IsViolation(e, c.(nodes := c.nodes[n.uid := n]), v) <==> IsViolation(e, c, v)
  {
    hide StateOf;
    var d := c.(nodes := c.nodes[n.uid := n]);
    if v.requirementUid in c.nodes {
      OnlyReviewsDecide(c.nodes, n, RequirementTarget(v.requirementUid), e.requirementDigest(c.nodes[v.requirementUid]));
    }
  }

  lemma CuratedContentErrors<G, D, Op>(e: Engine<G, D, Op>, c: Contents<G, D, Op>)
    ensures CuratedContent(e, c).Failure? ==> !CuratedContent(e, c).error.Violations?
  {
    hide InOrder, StringLeq, Applied, StateOf, GraphValid;
    StringOrder();
    InOrderFacts(StringLeq, c.patches.Keys);
    if PatchEvaluations(e, c).Success? {
      PatchChecksErrors(e, c, PatchEvaluations(e, c).value, InOrder(StringLeq, c.patches.Keys));
    }
  }

  lemma {:induction false} PatchChecksErrors<G, D, Op>(e: Engine<G, D, Op>, c: Contents<G, D, Op>, evals: Evals, keys: seq<string>)
    requires forall k :: k in keys ==> k in c.patches
    ensures PatchChecks(e, c, evals, keys).Failure? ==> !PatchChecks(e, c, evals, keys).error.Violations?
    decreases |keys|
  {
    if keys != [] {
      PatchChecksErrors(e, c, evals, keys[1..]);
    }
  }
}
