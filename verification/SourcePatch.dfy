/** Applying one curated patch to a structural source graph
    (`corpus/source_patch/apply.rs`). The graph, its digest, its validator and
    the five operations are parameters; the order of the checks is the code's. */
module SourcePatch {
  import opened Wrappers
  import opened Corpus

  /** `otherChecks` stands for the whole-graph validators that this model does
      not spell out: review supersession chains, source lineage, the structural
      source graphs, and the targets of patch operations. */
  datatype Engine<!G, !D, !Op> = Engine(
    emptyGraph: G,
    graphValid: (string, string, G) -> bool,
    digest: G -> D,
    operate: (string, G, Op) -> Result<G, string>,
    recompute: G -> G,
    requirementDigest: Node -> string,
    otherChecks: Contents<G, D, Op> -> bool)

  datatype Bindings = Bindings(recipe: string, input: string)

  datatype PatchError = PreGraphInvalid | StaleBinding(field: string) | OperationFailed(detail: string) | InvalidPostGraph

  const RECIPE_FIELD := "recipe_digest"
  const INPUT_FIELD := "input_digest"
  const PRE_GRAPH_FIELD := "pre_patch_graph_digest"

  lemma FieldNames()
    ensures RECIPE_FIELD == "recipe_digest" && INPUT_FIELD == "input_digest" && PRE_GRAPH_FIELD == "pre_patch_graph_digest"
    ensures |RECIPE_FIELD| == 13 && |INPUT_FIELD| == 12 && |PRE_GRAPH_FIELD| == 22
  {
  }

  function RunOperations<G, D, Op>(e: Engine<G, D, Op>, revision: string, g: G, ops: seq<Op>): Result<G, PatchError>
    decreases |ops|
  {
    if ops == [] then Success(g)
    else
      match e.operate(revision, g, ops[0])
      case Failure(detail) => Failure(OperationFailed(detail))
      case Success(h) => RunOperations(e, revision, h, ops[1..])
  }

  /** The graphs between the operations of a patch: each operation takes one to
      the next, from `g` on. */
  ghost predicate OperationChain<G, D, Op>(e: Engine<G, D, Op>, revision: string, g: G, ops: seq<Op>, gs: seq<G>) {
    && |gs| == |ops| + 1 && gs[0] == g
    && forall i :: 0 <= i < |ops| ==> e.operate(revision, gs[i], ops[i]) == Success(gs[i + 1])
  }

  /** After the graphs `gs`, the next operation fails with this complaint. */
  ghost predicate FailsAfter<G, D, Op>(e: Engine<G, D, Op>, revision: string, g: G, ops: seq<Op>, gs: seq<G>, detail: string) {
    && 0 < |gs| <= |ops| && OperationChain(e, revision, g, ops[..|gs| - 1], gs)
    && e.operate(revision, gs[|gs| - 1], ops[|gs| - 1]) == Failure(detail)
  }

  lemma ChainCons<G, D, Op>(e: Engine<G, D, Op>, revision: string, g: G, h: G, ops: seq<Op>, gs: seq<G>)
    requires ops != [] && e.operate(revision, g, ops[0]) == Success(h) && OperationChain(e, revision, h, ops[1..], gs)
    ensures OperationChain(e, revision, g, ops, [g] + gs)
  {
    var all := [g] + gs;
    forall i | 0 <= i < |ops| ensures e.operate(revision, all[i], ops[i]) == Success(all[i + 1]) {
      if i > 0 { assert ops[i] == ops[1..][i - 1]; }
    }
  }

  /** Any two chains over the same operations are the same. */
  lemma {:induction false} ChainIsUnique<G, D, Op>(e: Engine<G, D, Op>, revision: string, g: G, ops: seq<Op>, a: seq<G>, b: seq<G>, k: nat)
    requires OperationChain(e, revision, g, ops, a) && OperationChain(e, revision, g, ops, b) && k <= |ops|
    ensures a[k] == b[k]
  {
    if k > 0 { ChainIsUnique(e, revision, g, ops, a, b, k - 1); }
  }

  /** The operations run one after the other, every one of them, or up to the
      first that fails. */
  lemma {:induction false} RunsAll<G, D, Op>(e: Engine<G, D, Op>, revision: string, g: G, ops: seq<Op>) returns (gs: seq<G>)
    ensures RunOperations(e, revision, g, ops).Success? ==>
      OperationChain(e, revision, g, ops, gs) && gs[|ops|] == RunOperations(e, revision, g, ops).value
    ensures RunOperations(e, revision, g, ops).Failure? ==>
      RunOperations(e, revision, g, ops).error.OperationFailed? && FailsAfter(e, revision, g, ops, gs, RunOperations(e, revision, g, ops).error.detail)
    decreases |ops|
  {
    gs := [g];
    if ops != [] {
      var step := e.operate(revision, g, ops[0]);
      if step.Failure? {
        assert OperationChain(e, revision, g, ops[..0], gs);
      } else {
        var rest := RunsAll(e, revision, step.value, ops[1..]);
        gs := [g] + rest;
        if RunOperations(e, revision, step.value, ops[1..]).Success? {
          ChainCons(e, revision, g, step.value, ops, rest);
        } else {
          assert ops[..|rest|][1..] == ops[1..][..|rest| - 1];
          ChainCons(e, revision, g, step.value, ops[..|rest|], rest);
        }
      }
    }
  }

  lemma ChainPrefix<G, D, Op>(e: Engine<G, D, Op>, revision: string, g: G, ops: seq<Op>, gs: seq<G>, k: nat)
    requires OperationChain(e, revision, g, ops, gs) && k <= |ops|
    ensures OperationChain(e, revision, g, ops[..k], gs[..k + 1])
  {
  }

  /** Of two chains from the same graph, the longer one starts with the shorter. */
  lemma ChainsAgree<G, D, Op>(e: Engine<G, D, Op>, revision: string, g: G, ops: seq<Op>, gs: seq<G>, hs: seq<G>)
    requires 0 < |gs| <= |hs| <= |ops| + 1
    requires OperationChain(e, revision, g, ops[..|gs| - 1], gs) && OperationChain(e, revision, g, ops[..|hs| - 1], hs)
    ensures gs[|gs| - 1] == hs[|gs| - 1]
    ensures |gs| < |hs| ==> e.operate(revision, gs[|gs| - 1], ops[|gs| - 1]) == Success(hs[|gs|])
  {
    var n := |gs| - 1;
    ChainPrefix(e, revision, g, ops[..|hs| - 1], hs, n);
    assert ops[..|hs| - 1][..n] == ops[..n];
    ChainIsUnique(e, revision, g, ops[..n], gs, hs[..n + 1], n);
    assert n < |hs| - 1 ==> ops[..|hs| - 1][n] == ops[n];
  }

  /** Main result: running the operations succeeds exactly with the last graph of a
      chain over all of them, and fails exactly with the complaint of the first
      operation that fails on the way. */
  lemma RunExactly<G, D, Op>(e: Engine<G, D, Op>, revision: string, g: G, ops: seq<Op>, h: G, detail: string)
    ensures RunOperations(e, revision, g, ops) == Success(h) <==> exists gs :: OperationChain(e, revision, g, ops, gs) && gs[|ops|] == h
    ensures RunOperations(e, revision, g, ops) == Failure(OperationFailed(detail)) <==> exists gs :: FailsAfter(e, revision, g, ops, gs, detail)
    ensures RunOperations(e, revision, g, ops).Failure? ==> RunOperations(e, revision, g, ops).error.OperationFailed?
  {
    hide RunOperations;
    var run := RunsAll(e, revision, g, ops);
    assert ops[..|ops|] == ops;
    if gs :| OperationChain(e, revision, g, ops, gs) && gs[|ops|] == h {
      ChainsAgree(e, revision, g, ops, run, gs);
    }
    if gs :| FailsAfter(e, revision, g, ops, gs, detail) {
      if |run| <= |gs| {
        ChainsAgree(e, revision, g, ops, run, gs);
      } else {
        ChainsAgree(e, revision, g, ops, gs, run);
      }
    }
  }

  function Applied<G, D(==), Op>(e: Engine<G, D, Op>, g: G, p: Patch<D, Op>, b: Bindings, media: string): Result<G, PatchError> {
    if !e.graphValid(p.revision, media, g) then Failure(PreGraphInvalid)
    else if p.recipeDigest != b.recipe then Failure(StaleBinding(RECIPE_FIELD))
    else if p.inputDigest != b.input then Failure(StaleBinding(INPUT_FIELD))
    else if p.preDigest != e.digest(g) then Failure(StaleBinding(PRE_GRAPH_FIELD))
    else
      match RunOperations(e, p.revision, g, p.operations)
      case Failure(error) => Failure(error)
      case Success(h) =>
        if e.graphValid(p.revision, media, e.recompute(h)) then Success(e.recompute(h)) else Failure(InvalidPostGraph)
  }

  /** The patch takes `g` to `h` through `gs`: both are valid graphs, the patch was
      recorded against `g` and these bindings, every operation ran, and the node
      digests of the last graph were recomputed. */
  ghost predicate Produces<G, D, Op>(e: Engine<G, D, Op>, g: G, p: Patch<D, Op>, b: Bindings, media: string, gs: seq<G>, h: G) {
    && e.graphValid(p.revision, media, g)
    && p.recipeDigest == b.recipe && p.inputDigest == b.input && p.preDigest == e.digest(g)
    && OperationChain(e, p.revision, g, p.operations, gs)
    && h == e.recompute(gs[|p.operations|])
    && e.graphValid(p.revision, media, h)
  }

  /** The patch applies to this graph as far as its own record goes. */
  predicate Bound<G, D(==), Op>(e: Engine<G, D, Op>, g: G, p: Patch<D, Op>, b: Bindings, media: string) {
    e.graphValid(p.revision, media, g) && p.recipeDigest == b.recipe && p.inputDigest == b.input && p.preDigest == e.digest(g)
  }

  /** Main result: applying a patch gives `h` exactly when all of its operations,
      run in order, lead there; and each failure is named exactly. */
  lemma AppliedExactly<G, D, Op>(e: Engine<G, D, Op>, g: G, p: Patch<D, Op>, b: Bindings, media: string, h: G, detail: string)
    ensures Applied(e, g, p, b, media) == Success(h) <==> exists gs :: Produces(e, g, p, b, media, gs, h)
    ensures Applied(e, g, p, b, media) == Failure(OperationFailed(detail)) <==>
      Bound(e, g, p, b, media) && exists gs :: FailsAfter(e, p.revision, g, p.operations, gs, detail)
    ensures Applied(e, g, p, b, media) == Failure(InvalidPostGraph) <==>
      && Bound(e, g, p, b, media)
      && exists gs :: OperationChain(e, p.revision, g, p.operations, gs) && !e.graphValid(p.revision, media, e.recompute(gs[|p.operations|]))
  {
    hide RunOperations, FailsAfter;
    var run := RunOperations(e, p.revision, g, p.operations);
    RunExactly(e, p.revision, g, p.operations, if run.Success? then run.value else g, detail);
    if gs :| Produces(e, g, p, b, media, gs, h) {
      RunExactly(e, p.revision, g, p.operations, gs[|p.operations|], detail);
    }
    if gs :| OperationChain(e, p.revision, g, p.operations, gs) && !e.graphValid(p.revision, media, e.recompute(gs[|p.operations|])) {
      RunExactly(e, p.revision, g, p.operations, gs[|p.operations|], detail);
    }
    if Applied(e, g, p, b, media).Success? {
      var gs :| OperationChain(e, p.revision, g, p.operations, gs) && gs[|p.operations|] == run.value;
      assert Produces(e, g, p, b, media, gs, Applied(e, g, p, b, media).value);
    }
  }

  method ApplyPatch<G, D(==), Op>(e: Engine<G, D, Op>, g: G, p: Patch<D, Op>, b: Bindings, media: string) returns (r: Result<G, PatchError>)
    ensures r == Applied(e, g, p, b, media)
    ensures r.Success? ==> e.graphValid(p.revision, media, g) && e.digest(g) == p.preDigest && e.graphValid(p.revision, media, r.value)
    ensures r.Success? ==> b == Bindings(p.recipeDigest, p.inputDigest)
    ensures r == Failure(PreGraphInvalid) <==> !e.graphValid(p.revision, media, g)
    ensures r.Failure? && r.error.StaleBinding? <==> e.graphValid(p.revision, media, g) && !(b == Bindings(p.recipeDigest, p.inputDigest) && e.digest(g) == p.preDigest)
    ensures r == Failure(StaleBinding("recipe_digest")) <==> e.graphValid(p.revision, media, g) && b.recipe != p.recipeDigest
    ensures r == Failure(StaleBinding("input_digest")) <==>
      e.graphValid(p.revision, media, g) && b.recipe == p.recipeDigest && b.input != p.inputDigest
    ensures r == Failure(StaleBinding("pre_patch_graph_digest")) <==>
      e.graphValid(p.revision, media, g) && b == Bindings(p.recipeDigest, p.inputDigest) && e.digest(g) != p.preDigest
  {
    FieldNames();
    hide RECIPE_FIELD, INPUT_FIELD, PRE_GRAPH_FIELD;
    if !e.graphValid(p.revision, media, g) {
      return Failure(PreGraphInvalid);
    }
    if p.recipeDigest != b.recipe {
      return Failure(StaleBinding(RECIPE_FIELD));
    }
    if p.inputDigest != b.input {
      return Failure(StaleBinding(INPUT_FIELD));
    }
    if p.preDigest != e.digest(g) {
      return Failure(StaleBinding(PRE_GRAPH_FIELD));
    }
    var working := g;
    var i := 0;
    while i < |p.operations|
      invariant 0 <= i <= |p.operations|
      invariant RunOperations(e, p.revision, g, p.operations) == RunOperations(e, p.revision, working, p.operations[i..])
    {
      var step := e.operate(p.revision, working, p.operations[i]);
      if step.Failure? {
        return Failure(OperationFailed(step.error));
      }
      working := step.value;
      i := i + 1;
    }
    working := e.recompute(working);
    if !e.graphValid(p.revision, media, working) {
      return Failure(InvalidPostGraph);
    }
    r := Success(working);
  }
}
