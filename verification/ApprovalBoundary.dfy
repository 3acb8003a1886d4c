/** The strict approval gate (`corpus/approval_boundary.rs`): no test may verify,
    and no requirement may claim modules or diagnostics, before approval. */
module ApprovalBoundary {
  import opened Ordering
  import opened Wrappers
  import opened Corpus
  import opened SourcePatch
  import opened Lifecycle

  /** Variants in declaration order, which is the report order. */
  datatype Referring =
    | TestRef(testUid: string, testId: string)
    | ImplementationModules(modules: seq<string>)
    | EmittedDiagnostics(codes: seq<string>)

  datatype Violation = Violation(requirementUid: string, requirementId: string, state: State, referring: Referring)

  datatype BoundaryError =
    | Violations(violations: seq<Violation>)
    | LifecycleFailed(error: LifecycleError)
    | InvariantMissingEvaluation(requirementUid: string)
    | PatchLifecycleFailed(patchLifecycleError: LifecycleError)
    | EffectiveCuratedContent(patchUid: string, source: PatchError)
    | InvariantMissingPatchEvaluation(patchUid: string)

  // ---------------------------------------------------------- report order

  predicate ReferringLeq(a: Referring, b: Referring) {
    match (a, b)
    case (TestRef(u, i), TestRef(v, j)) => StringPairLeq((u, i), (v, j))
    case (TestRef(_, _), _) => true
    case (ImplementationModules(_), TestRef(_, _)) => false
    case (ImplementationModules(m), ImplementationModules(n)) => StringsLeq(m, n)
    case (ImplementationModules(_), EmittedDiagnostics(_)) => true
    case (EmittedDiagnostics(m), EmittedDiagnostics(n)) => StringsLeq(m, n)
    case (EmittedDiagnostics(_), _) => false
  }

  type ViolationKey = (string, Referring)

  function KeyOf(v: Violation): ViolationKey { (v.requirementUid, v.referring) }

  predicate KeyLeq(a: ViolationKey, b: ViolationKey) { PairLeq(StringLeq, ReferringLeq, a, b) }

  /** The report order of claims on one requirement: tests by uid and then id, then
      modules, then diagnostics, each list as a dictionary orders it. */
  lemma ReferringOrderExactly(a: Referring, b: Referring)
    ensures a.TestRef? && b.TestRef? ==>
      (ReferringLeq(a, b) <==> if a.testUid != b.testUid then StringLeq(a.testUid, b.testUid) else StringLeq(a.testId, b.testId))
    ensures a.ImplementationModules? && b.ImplementationModules? ==> (ReferringLeq(a, b) <==> StringsLeq(a.modules, b.modules))
    ensures a.EmittedDiagnostics? && b.EmittedDiagnostics? ==> (ReferringLeq(a, b) <==> StringsLeq(a.codes, b.codes))
    ensures a.TestRef? && !b.TestRef? ==> ReferringLeq(a, b) && !ReferringLeq(b, a)
    ensures a.ImplementationModules? && b.EmittedDiagnostics? ==> ReferringLeq(a, b) && !ReferringLeq(b, a)
  {
  }

  /** Violations are reported by requirement, and then by claim. */
  lemma KeyOrderExactly(v: Violation, w: Violation)
    ensures KeyLeq(KeyOf(v), KeyOf(w)) <==>
      if v.requirementUid != w.requirementUid then StringLeq(v.requirementUid, w.requirementUid) else ReferringLeq(v.referring, w.referring)
  {
  }

  lemma ReferringOrder()
    ensures TotalOrder(ReferringLeq)
  {
    hide StringPairLeq, StringsLeq;
    StringPairOrder();
    StringsOrder();
  }

  lemma KeyOrder()
    ensures TotalOrder(KeyLeq)
  {
    hide StringLeq, ReferringLeq;
    StringOrder();
    ReferringOrder();
  }

  // ---------------------------------------------------------------- the scan

  type Evals = map<string, State>

  function TestViolation(nodes: map<string, Node>, evals: Evals, test: Node, target: string): Violation
    requires target in nodes && target in evals
  {
    Violation(target, nodes[target].id, evals[target], TestRef(test.uid, test.id))
  }

  function ScanEdges(nodes: map<string, Node>, evals: Evals, test: Node, edges: seq<Edge>, acc: seq<Violation>): Result<seq<Violation>, BoundaryError>
    decreases |edges|
  {
    if edges == [] then Success(acc)
    else if edges[0].0 != Verifies then ScanEdges(nodes, evals, test, edges[1..], acc)
    else if edges[0].1 !in nodes || edges[0].1 !in evals then Failure(LifecycleFailed(RequirementMissing(edges[0].1)))
    else if evals[edges[0].1] == Approved then ScanEdges(nodes, evals, test, edges[1..], acc)
    else ScanEdges(nodes, evals, test, edges[1..], acc + [TestViolation(nodes, evals, test, edges[0].1)])
  }

  /** The implementation claims of an unapproved requirement. */
  function Claims(metadata: map<string, TraceMetadata>, n: Node, state: State): seq<Violation> {
    if n.uid !in metadata || metadata[n.uid].TestTrace? then []
    else
      var m := metadata[n.uid];
      (if m.modules == [] then [] else [Violation(n.uid, n.id, state, ImplementationModules(m.modules))]) +
      (if m.emits == [] then [] else [Violation(n.uid, n.id, state, EmittedDiagnostics(m.emits))])
  }

  function ScanNode<G, D, Op>(c: Contents<G, D, Op>, evals: Evals, n: Node, acc: seq<Violation>): Result<seq<Violation>, BoundaryError> {
    match n
    case Test(_, _, edges) => ScanEdges(c.nodes, evals, n, edges, acc)
    case Requirement(uid, _, _, _) =>
      if uid !in evals then Failure(InvariantMissingEvaluation(uid))
      else if evals[uid] == Approved then Success(acc)
      else Success(acc + Claims(c.metadata, n, evals[uid]))
    case Review(_, _, _, _, _, _, _) => Success(acc)
    case SourceRevision(_, _, _, _) => Success(acc)
  }

  function ScanNodes<G, D, Op>(c: Contents<G, D, Op>, evals: Evals, keys: seq<string>, acc: seq<Violation>): Result<seq<Violation>, BoundaryError>
    requires forall k :: k in keys ==> k in c.nodes
    decreases |keys|
  {
    if keys == [] then Success(acc)
    else
      match ScanNode(c, evals, c.nodes[keys[0]], acc)
      case Failure(error) => Failure(error)
      case Success(more) => ScanNodes(c, evals, keys[1..], more)
  }

  method ScanTestEdges(nodes: map<string, Node>, evals: Evals, test: Node, found: seq<Violation>) returns (r: Result<seq<Violation>, BoundaryError>)
    ensures r == ScanEdges(nodes, evals, test, test.edges, found)
  {
    var violations := found;
    var i := 0;
    while i < |test.edges|
      invariant 0 <= i <= |test.edges|
      invariant ScanEdges(nodes, evals, test, test.edges, found) == ScanEdges(nodes, evals, test, test.edges[i..], violations)
    {
      var target := test.edges[i].1;
      if test.edges[i].0 == Verifies {
        if target !in nodes || target !in evals {
          return Failure(LifecycleFailed(RequirementMissing(target)));
        }
        if evals[target] != Approved {
          violations := violations + [TestViolation(nodes, evals, test, target)];
        }
      }
      i := i + 1;
    }
    r := Success(violations);
  }

  ghost function Scan<G, D, Op>(c: Contents<G, D, Op>, evals: Evals): Result<seq<Violation>, BoundaryError> {
    StringOrder();
    InOrderFacts(StringLeq, c.nodes.Keys);
    ScanNodes(c, evals, InOrder(StringLeq, c.nodes.Keys), [])
  }

  lemma ScanStep<G, D, Op>(c: Contents<G, D, Op>, evals: Evals, keys: seq<string>, i: nat, acc: seq<Violation>)
    requires i < |keys| && forall k :: k in keys ==> k in c.nodes
    ensures var step := ScanNode(c, evals, c.nodes[keys[i]], acc);
            ScanNodes(c, evals, keys[i..], acc) == if step.Failure? then Failure(step.error) else ScanNodes(c, evals, keys[i + 1..], step.value)
  {
    hide ScanNode;
    assert keys[i..][0] == keys[i] && keys[i..][1..] == keys[i + 1..];
  }

  lemma ScanEnd<G, D, Op>(c: Contents<G, D, Op>, evals: Evals, acc: seq<Violation>)
    ensures ScanNodes(c, evals, [], acc) == Success(acc)
  {
  }

  method ScanGraph<G, D, Op>(c: Contents<G, D, Op>, evals: Evals) returns (r: Result<seq<Violation>, BoundaryError>)
    ensures r == Scan(c, evals)
  {
    hide InOrder, StringLeq, Claims, ScanEdges, ScanNodes;
    StringOrder();
    InOrderFacts(StringLeq, c.nodes.Keys);
    var keys := KeysInOrder(c.nodes);
    var violations := [];
    var i := 0;
    assert keys[0..] == keys;
    while i < |keys|
      invariant 0 <= i <= |keys|
      invariant ScanNodes(c, evals, keys, []) == ScanNodes(c, evals, keys[i..], violations)
    {
      ScanStep(c, evals, keys, i, violations);
      var n := c.nodes[keys[i]];
      match n {
        case Test(_, _, _) =>
          var scanned := ScanTestEdges(c.nodes, evals, n, violations);
          if scanned.Failure? {
            return Failure(scanned.error);
          }
          violations := scanned.value;
        case Requirement(_, _, _, _) =>
          if n.uid !in evals {
            return Failure(InvariantMissingEvaluation(n.uid));
          }
          if evals[n.uid] != Approved {
            violations := violations + Claims(c.metadata, n, evals[n.uid]);
          }
        case Review(_, _, _, _, _, _, _) =>
        case SourceRevision(_, _, _, _) =>
      }
      i := i + 1;
    }
    assert keys[i..] == [];
    ScanEnd(c, evals, violations);
    r := Success(violations);
  }

  // ------------------------------------------------------- the patch plane

  function PatchCheck<G, D(==), Op>(e: Engine<G, D, Op>, c: Contents<G, D, Op>, evals: Evals, u: string): Result<(), BoundaryError>
    requires u in c.patches
  {
    var p := c.patches[u];
    if p.uid !in evals then Failure(InvariantMissingPatchEvaluation(p.uid))
    else if evals[p.uid] != Approved then Success(())
    else if !(p.revision in c.nodes && c.nodes[p.revision].SourceRevision?) then Failure(InvariantMissingPatchEvaluation(p.uid))
    else
      match AppliedAlone(e, c, p, c.nodes[p.revision].mediaType)
      case Failure(source) => Failure(EffectiveCuratedContent(p.uid, source))
      case Success(_) => Success(())
  }

  /** A patch applied to the committed parser graph under its own bindings. */
  function AppliedAlone<G, D(==), Op>(e: Engine<G, D, Op>, c: Contents<G, D, Op>, p: Patch<D, Op>, media: string): Result<G, PatchError> {
    Applied(e, ParserGraph(e, c, p.revision), p, Bindings(p.recipeDigest, p.inputDigest), media)
  }

  function PatchChecks<G, D(==), Op>(e: Engine<G, D, Op>, c: Contents<G, D, Op>, evals: Evals, keys: seq<string>): Result<(), BoundaryError>
    requires forall k :: k in keys ==> k in c.patches
    decreases |keys|
  {
    if keys == [] then Success(())
    else
      match PatchCheck(e, c, evals, keys[0])
      case Failure(error) => Failure(error)
      case Success(_) => PatchChecks(e, c, evals, keys[1..])
  }

  ghost function CuratedContent<G, D, Op>(e: Engine<G, D, Op>, c: Contents<G, D, Op>): Result<(), BoundaryError> {
    match PatchEvaluations(e, c)
    case Failure(error) => Failure(PatchLifecycleFailed(error))
    case Success(evals) =>
      StringOrder();
      InOrderFacts(StringLeq, c.patches.Keys);
      PatchChecks(e, c, evals, InOrder(StringLeq, c.patches.Keys))
  }

  method ValidateEffectiveCuratedContent<G, D(==), Op>(e: Engine<G, D, Op>, c: Contents<G, D, Op>) returns (r: Result<(), BoundaryError>)
    ensures r == CuratedContent(e, c)
  {
    hide InOrder, StringLeq, Applied, StateOf, GraphValid;
    var evaluated := PatchEvaluations(e, c);
    if evaluated.Failure? {
      return Failure(PatchLifecycleFailed(evaluated.error));
    }
    var evals := evaluated.value;
    StringOrder();
    InOrderFacts(StringLeq, c.patches.Keys);
    var keys := KeysInOrder(c.patches);
    var i := 0;
    while i < |keys|
      invariant 0 <= i <= |keys|
      invariant PatchChecks(e, c, evals, keys) == PatchChecks(e, c, evals, keys[i..])
    {
      var p := c.patches[keys[i]];
      if p.uid !in evals {
        return Failure(InvariantMissingPatchEvaluation(p.uid));
      }
      if evals[p.uid] == Approved {
        if !(p.revision in c.nodes && c.nodes[p.revision].SourceRevision?) {
          return Failure(InvariantMissingPatchEvaluation(p.uid));
        }
        var graph := if p.revision in c.sourceGraphs then c.sourceGraphs[p.revision] else e.emptyGraph;
        var applied := ApplyPatch(e, graph, p, Bindings(p.recipeDigest, p.inputDigest), c.nodes[p.revision].mediaType);
        if applied.Failure? {
          return Failure(EffectiveCuratedContent(p.uid, applied.error));
        }
      }
      i := i + 1;
    }
    r := Success(());
  }

  // ------------------------------------------------------------- the gate

  ghost function Gate<G, D, Op>(e: Engine<G, D, Op>, c: Contents<G, D, Op>): Result<(), BoundaryError> {
    match Evaluations(e, c)
    case Failure(error) => Failure(LifecycleFailed(error))
    case Success(evals) =>
      match Scan(c, evals)
      case Failure(error) => Failure(error)
      case Success(found) =>
        if found == [] then CuratedContent(e, c) else Failure(Violations(SortBy(KeyOf, KeyLeq, found)))
  }

  method ValidateRequired<G, D(==), Op>(e: Engine<G, D, Op>, c: Contents<G, D, Op>) returns (r: Result<(), BoundaryError>)
    ensures r == Gate(e, c)
  {
    hide GraphValid, Scan, StateOf, SortBy, KeyLeq, CuratedContent;
    var evaluated := Evaluations(e, c);
    if evaluated.Failure? {
      return Failure(LifecycleFailed(evaluated.error));
    }
    var scanned := ScanGraph(c, evaluated.value);
    if scanned.Failure? {
      return Failure(scanned.error);
    }
    KeyOrder();
    SortByFacts(KeyOf, KeyLeq, scanned.value);
    var violations := SortBy(KeyOf, KeyLeq, scanned.value);
    if violations != [] {
      assert |multiset(violations)| == |multiset(scanned.value)|;
      return Failure(Violations(violations));
    }
    assert |multiset(violations)| == |multiset(scanned.value)|;
    r := ValidateEffectiveCuratedContent(e, c);
  }
}
