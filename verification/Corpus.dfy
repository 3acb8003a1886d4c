/** The uid-keyed corpus graph (`corpus/graph.rs`, `graph/nodes.rs`,
    `graph/validation.rs`, `graph/review_invariants.rs`): what insertion and
    validation accept. */
module Corpus {
  import opened Ordering
  import opened Wrappers

  /** Constructors in declaration order, which is their derived order. */
  datatype EdgeKind = DerivesFrom | Verifies | Reviews | Supersedes

  datatype NodeKind = RequirementKind | TestKind | ReviewKind | SourceRevisionKind

  type Edge = (EdgeKind, string)

  datatype Decision = Approve | Reject

  datatype ReviewTarget = RequirementTarget(uid: string) | PatchTarget(uid: string)

  /** `content` stands for the reviewed text fields of a requirement. */
  datatype Node =
    | Requirement(uid: string, id: string, edges: seq<Edge>, content: string)
    | Test(uid: string, id: string, edges: seq<Edge>)
    | Review(uid: string, id: string, edges: seq<Edge>, target: ReviewTarget, schema: nat,
             reviewedDigest: string, decision: Decision)
    | SourceRevision(uid: string, id: string, edges: seq<Edge>, mediaType: string)

  datatype TraceMetadata = RequirementTrace(modules: seq<string>, emits: seq<string>) | TestTrace

  /** A curated patch over graphs whose digests are `D`, made of operations `Op`. */
  datatype Patch<D, Op> = Patch(uid: string, humanId: string, revision: string, recipeDigest: string,
                                inputDigest: string, preDigest: D, operations: seq<Op>, contentDigest: string)

  datatype Contents<G, D, Op> = Contents(nodes: map<string, Node>, metadata: map<string, TraceMetadata>,
                                         sourceGraphs: map<string, G>, patches: map<string, Patch<D, Op>>)

  const SUPPORTED_REVIEW_CONTENT_SCHEMA := 1

  function Kind(n: Node): NodeKind {
    match n
    case Requirement(_, _, _, _) => RequirementKind
    case Test(_, _, _) => TestKind
    case Review(_, _, _, _, _, _, _) => ReviewKind
    case SourceRevision(_, _, _, _) => SourceRevisionKind
  }

  function Uid(n: Node): string { n.uid }

  function KindAndId(n: Node): (NodeKind, string) { (Kind(n), n.id) }

  // ------------------------------------------------------------- edge order

  function Rank(k: EdgeKind): nat {
    match k case DerivesFrom => 0 case Verifies => 1 case Reviews => 2 case Supersedes => 3
  }

  predicate EdgeKindLeq(a: EdgeKind, b: EdgeKind) { Rank(a) <= Rank(b) }

  predicate EdgeLeq(x: Edge, y: Edge) { PairLeq(EdgeKindLeq, StringLeq, x, y) }

  lemma EdgeOrder()
    ensures TotalOrder(EdgeLeq)
  {
    StringOrder();
  }

  function Canonical(n: Node): (r: Node)
    ensures r.uid == n.uid && KindAndId(r) == KindAndId(n)
  {
    n.(edges := SortBy(Identity, EdgeLeq, n.edges))
  }

  /** The stored node is the given one with its edges in order: by kind, and within a
      kind by target; none is lost and none added. */
  lemma CanonicalExactly(n: Node)
    ensures Canonical(n) == n.(edges := Canonical(n).edges) && multiset(Canonical(n).edges) == multiset(n.edges)
    ensures forall i, j :: 0 <= i < j < |n.edges| ==>
      var (k, s), (l, t) := Canonical(n).edges[i], Canonical(n).edges[j];
      Rank(k) < Rank(l) || (k == l && StringLeq(s, t))
    ensures Rank(DerivesFrom) < Rank(Verifies) < Rank(Reviews) < Rank(Supersedes)
  {
    hide StringLeq;
    EdgeOrder();
    SortByFacts(Identity, EdgeLeq, n.edges);
    var edges := Canonical(n).edges;
    assert |multiset(edges)| == |multiset(n.edges)|;
    forall i, j | 0 <= i < j < |n.edges|
      ensures var (k, s), (l, t) := edges[i], edges[j]; Rank(k) < Rank(l) || (k == l && StringLeq(s, t))
    {
      assert EdgeLeq(Identity(edges[i]), Identity(edges[j]));
    }
  }

  /** An edge list in order has no repeats exactly when none occurs twice. */
  lemma {:induction false} StrictExactly(edges: seq<Edge>)
    requires SortedBy(Identity, EdgeLeq, edges)
    ensures StrictlySorted(EdgeLeq, edges) <==> forall e :: multiset(edges)[e] <= 1
  {
    if StrictlySorted(EdgeLeq, edges) {
      forall e ensures multiset(edges)[e] <= 1 {
        DistinctCount(Identity, edges, e);
      }
    } else {
      var i, j :| 0 <= i < j < |edges| && !(EdgeLeq(edges[i], edges[j]) && edges[i] != edges[j]);
      assert EdgeLeq(Identity(edges[i]), Identity(edges[j]));
      MultisetSplit(edges, i);
      assert edges[i + 1..][j - i - 1] == edges[i];
      assert edges[i] in multiset(edges[i + 1..]);
      assert multiset(edges)[edges[i]] >= 2;
    }
  }

  /** The first of two equal neighbours, as `windows(2).find`. */
  function FirstPair(edges: seq<Edge>): Option<Edge> {
    if |edges| < 2 then None
    else if edges[0] == edges[1] then Some(edges[0])
    else FirstPair(edges[1..])
  }

  lemma {:induction false} FirstPairExact(edges: seq<Edge>)
    requires SortedBy(Identity, EdgeLeq, edges)
    ensures FirstPair(edges) == None <==> StrictlySorted(EdgeLeq, edges)
  {
    EdgeOrder();
    if |edges| >= 2 {
      var t := edges[1..];
      assert forall i :: 0 <= i < |t| ==> t[i] == edges[i + 1];
      FirstPairExact(t);
      if edges[0] != edges[1] && StrictlySorted(EdgeLeq, t) {
        forall j | 0 < j < |edges| ensures EdgeLeq(edges[0], edges[j]) && edges[0] != edges[j] {
          assert EdgeLeq(Identity(edges[0]), Identity(edges[j]));
          if j > 1 {
            assert EdgeLeq(Identity(edges[0]), Identity(edges[1])) && EdgeLeq(t[0], t[j - 1]) && t[0] != t[j - 1];
          }
        }
        forall i, j | 0 < i < j < |edges| ensures EdgeLeq(edges[i], edges[j]) && edges[i] != edges[j] {
          assert EdgeLeq(t[i - 1], t[j - 1]) && t[i - 1] != t[j - 1];
        }
      }
      if edges[0] == edges[1] { assert !StrictlySorted(EdgeLeq, edges); }
      if !StrictlySorted(EdgeLeq, t) {
        var i, j :| 0 <= i < j < |t| && !(EdgeLeq(t[i], t[j]) && t[i] != t[j]);
        assert !(EdgeLeq(edges[i + 1], edges[j + 1]) && edges[i + 1] != edges[j + 1]);
      }
    }
  }

  // -------------------------------------------------------------- insertion

  datatype InsertError =
    | DuplicateUid(uid: string)
    | DuplicateHumanId(id: string, kind: NodeKind, firstUid: string, duplicateUid: string)
    | DuplicateEdge(from: string, to: string, edgeKind: EdgeKind)

  /** The first key, in the given order, whose node repeats the kind and id. */
  function FirstClash(nodes: map<string, Node>, keys: seq<string>, n: Node): Option<string> {
    if keys == [] then None
    else if keys[0] in nodes && KindAndId(nodes[keys[0]]) == KindAndId(n) then Some(keys[0])
    else FirstClash(nodes, keys[1..], n)
  }

  ghost function Insertion(nodes: map<string, Node>, n: Node): Result<map<string, Node>, InsertError> {
    if n.uid in nodes then Failure(DuplicateUid(n.uid))
    else
      match FirstClash(nodes, InOrder(StringLeq, nodes.Keys), n)
      case Some(u) => Failure(DuplicateHumanId(n.id, Kind(n), u, n.uid))
      case None =>
        match FirstPair(Canonical(n).edges)
        case Some(e) => Failure(DuplicateEdge(n.uid, e.1, e.0))
        case None => Success(nodes[n.uid := Canonical(n)])
  }

  datatype PatchInsertError = DuplicatePatchUid(uid: string) | DuplicatePatchHumanId(humanId: string, firstUid: string, duplicateUid: string)

  ghost function PatchInsertion<D, Op>(patches: map<string, Patch<D, Op>>, p: Patch<D, Op>): Result<map<string, Patch<D, Op>>, PatchInsertError> {
    if p.uid in patches then Failure(DuplicatePatchUid(p.uid))
    else
      match FirstPatchClash(patches, InOrder(StringLeq, patches.Keys), p.humanId)
      case Some(u) => Failure(DuplicatePatchHumanId(p.humanId, u, p.uid))
      case None => Success(patches[p.uid := p])
  }

  function FirstPatchClash<D, Op>(patches: map<string, Patch<D, Op>>, keys: seq<string>, humanId: string): Option<string> {
    if keys == [] then None
    else if keys[0] in patches && patches[keys[0]].humanId == humanId then Some(keys[0])
    else FirstPatchClash(patches, keys[1..], humanId)
  }

  /** What insertion keeps true of the node map. */
  ghost predicate WellKeyed(nodes: map<string, Node>) {
    && (forall u :: u in nodes ==> nodes[u].uid == u && StrictlySorted(EdgeLeq, nodes[u].edges))
    && (forall u, v :: u in nodes && v in nodes && KindAndId(nodes[u]) == KindAndId(nodes[v]) ==> u == v)
  }

  ghost predicate WellKeyedPatches<D, Op>(patches: map<string, Patch<D, Op>>) {
    && (forall u :: u in patches ==> patches[u].uid == u)
    && (forall u, v :: u in patches && v in patches && patches[u].humanId == patches[v].humanId ==> u == v)
  }

  lemma {:induction false} FirstClashExact(nodes: map<string, Node>, keys: seq<string>, n: Node)
    requires forall k :: k in keys ==> k in nodes
    ensures var c := FirstClash(nodes, keys, n);
            c.None? <==> forall k :: k in keys ==> KindAndId(nodes[k]) != KindAndId(n)
    ensures var c := FirstClash(nodes, keys, n);
            c.Some? ==> c.value in keys && KindAndId(nodes[c.value]) == KindAndId(n)
  {
    if keys != [] {
      assert keys == [keys[0]] + keys[1..];
      FirstClashExact(nodes, keys[1..], n);
    }
  }

  lemma {:induction false} FirstPatchClashExact<D, Op>(patches: map<string, Patch<D, Op>>, keys: seq<string>, humanId: string)
    requires forall k :: k in keys ==> k in patches
    ensures var c := FirstPatchClash(patches, keys, humanId);
            c.None? <==> forall k :: k in keys ==> patches[k].humanId != humanId
    ensures var c := FirstPatchClash(patches, keys, humanId);
            c.Some? ==> c.value in keys && patches[c.value].humanId == humanId
  {
    if keys != [] {
      assert keys == [keys[0]] + keys[1..];
      FirstPatchClashExact(patches, keys[1..], humanId);
    }
  }

  lemma {:induction false} FirstPairRepeats(edges: seq<Edge>)
    ensures FirstPair(edges).Some? ==> multiset(edges)[FirstPair(edges).value] >= 2
  {
    if |edges| >= 2 {
      assert edges == [edges[0]] + edges[1..];
      assert edges[1..][0] == edges[1];
      FirstPairRepeats(edges[1..]);
      assert edges[1] in multiset(edges[1..]);
    }
  }

  lemma InsertionFacts(nodes: map<string, Node>, n: Node)
    requires WellKeyed(nodes)
    ensures var r := Insertion(nodes, n);
            r.Success? <==> n.uid !in nodes && (forall u :: u in nodes ==> KindAndId(nodes[u]) != KindAndId(n)) &&
                            StrictlySorted(EdgeLeq, Canonical(n).edges)
    ensures Insertion(nodes, n).Success? ==> WellKeyed(Insertion(nodes, n).value) && Insertion(nodes, n).value == nodes[n.uid := Canonical(n)]
    ensures var r := Insertion(nodes, n);
            r.Failure? && r.error.DuplicateHumanId? ==>
              forall u :: u in nodes ==> (KindAndId(nodes[u]) == KindAndId(n) <==> u == r.error.firstUid)
  {
    hide SortBy, StringLeq, InOrder, FirstClash, FirstPair, EdgeLeq;
    StringOrder();
    EdgeOrder();
    InOrderFacts(StringLeq, nodes.Keys);
    FirstClashExact(nodes, InOrder(StringLeq, nodes.Keys), n);
    SortByFacts(Identity, EdgeLeq, n.edges);
    FirstPairExact(Canonical(n).edges);
  }

  lemma InsertionErrors(nodes: map<string, Node>, n: Node)
    ensures Insertion(nodes, n) == Failure(DuplicateUid(n.uid)) <==> n.uid in nodes
    ensures var r := Insertion(nodes, n);
            r.Failure? && r.error.DuplicateHumanId? ==> r.error.id == n.id && r.error.kind == Kind(n) && r.error.duplicateUid == n.uid
    ensures var r := Insertion(nodes, n);
            r.Failure? && r.error.DuplicateEdge? ==> r.error.from == n.uid && multiset(Canonical(n).edges)[(r.error.edgeKind, r.error.to)] >= 2
  {
    hide SortBy, StringLeq, InOrder, FirstClash, EdgeLeq, FirstPair;
    FirstPairRepeats(Canonical(n).edges);
  }

  /** Main result: insertion accepts a node exactly when its uid is new, no node of
      its kind has its id and no edge is repeated; it then keeps the map well keyed
      and stores the node with its edges in order. A rejected human id names the one
      node that already holds it, a rejected edge one that is repeated. */
  lemma InsertionExact(nodes: map<string, Node>, n: Node)
    requires WellKeyed(nodes)
    ensures var r := Insertion(nodes, n);
            r.Success? <==> n.uid !in nodes && (forall u :: u in nodes ==> Kind(nodes[u]) != Kind(n) || nodes[u].id != n.id) && forall e :: multiset(n.edges)[e] <= 1
    ensures Insertion(nodes, n) == Failure(DuplicateUid(n.uid)) <==> n.uid in nodes
    ensures Insertion(nodes, n).Success? ==> WellKeyed(Insertion(nodes, n).value) && Insertion(nodes, n).value == nodes[n.uid := Canonical(n)]
    ensures var r := Insertion(nodes, n);
            r.Failure? && r.error.DuplicateHumanId? ==>
              r.error == DuplicateHumanId(n.id, Kind(n), r.error.firstUid, n.uid)
    ensures var r := Insertion(nodes, n);
            r.Failure? && r.error.DuplicateHumanId? ==>
              forall u :: u in nodes ==> (Kind(nodes[u]) == Kind(n) && nodes[u].id == n.id <==> u == r.error.firstUid)
    ensures var r := Insertion(nodes, n);
            r.Failure? && r.error.DuplicateEdge? ==> r.error.from == n.uid && multiset(n.edges)[(r.error.edgeKind, r.error.to)] >= 2
  {
    hide Insertion, WellKeyed, StrictlySorted, Canonical, EdgeLeq;
    InsertionFacts(nodes, n);
    InsertionErrors(nodes, n);
    CanonicalExactly(n);
    InOrderEdges(n);
    StrictExactly(Canonical(n).edges);
  }

  lemma InOrderEdges(n: Node)
    ensures SortedBy(Identity, EdgeLeq, Canonical(n).edges)
  {
    EdgeOrder();
    SortByFacts(Identity, EdgeLeq, n.edges);
  }

  lemma PatchInsertionExact<D, Op>(patches: map<string, Patch<D, Op>>, p: Patch<D, Op>)
    requires WellKeyedPatches(patches)
    ensures var r := PatchInsertion(patches, p);
            r.Success? <==> p.uid !in patches && forall u :: u in patches ==> patches[u].humanId != p.humanId
    ensures PatchInsertion(patches, p).Success? ==> WellKeyedPatches(PatchInsertion(patches, p).value)
    ensures PatchInsertion(patches, p).Success? ==> PatchInsertion(patches, p).value == patches[p.uid := p]
    ensures PatchInsertion(patches, p) == Failure(DuplicatePatchUid(p.uid)) <==> p.uid in patches
    ensures var r := PatchInsertion(patches, p);
            r.Failure? && r.error.DuplicatePatchHumanId? ==> r.error.humanId == p.humanId && r.error.duplicateUid == p.uid
    ensures var r := PatchInsertion(patches, p);
            r.Failure? && r.error.DuplicatePatchHumanId? ==>
              forall u :: u in patches ==> (patches[u].humanId == p.humanId <==> u == r.error.firstUid)
  {
    hide StringLeq, InOrder, FirstPatchClash;
    StringOrder();
    InOrderFacts(StringLeq, patches.Keys);
    FirstPatchClashExact(patches, InOrder(StringLeq, patches.Keys), p.humanId);
  }

  method FindClash(nodes: map<string, Node>, n: Node) returns (r: Option<string>)
    ensures r == FirstClash(nodes, InOrder(StringLeq, nodes.Keys), n)
  {
    var keys := KeysInOrder(nodes);
    var i := 0;
    while i < |keys|
      invariant 0 <= i <= |keys|
      invariant FirstClash(nodes, keys, n) == FirstClash(nodes, keys[i..], n)
    {
      if keys[i] in nodes && KindAndId(nodes[keys[i]]) == KindAndId(n) {
        return Some(keys[i]);
      }
      i := i + 1;
    }
    r := None;
  }

  method FindPair(edges: seq<Edge>) returns (r: Option<Edge>)
    ensures r == FirstPair(edges)
  {
    var i := 0;
    while i + 1 < |edges|
      invariant 0 <= i <= |edges|
      invariant FirstPair(edges) == FirstPair(edges[i..])
    {
      if edges[i] == edges[i + 1] {
        return Some(edges[i]);
      }
      i := i + 1;
    }
    r := None;
  }

  /** The graph object. */
  class CorpusGraph<G, D, Op> {
    var nodes: map<string, Node>
    var traceMetadata: map<string, TraceMetadata>
    var sourceGraphs: map<string, G>
    var sourcePatches: map<string, Patch<D, Op>>

    ghost predicate Valid()
      reads this
    {
      WellKeyed(nodes) && WellKeyedPatches(sourcePatches)
    }

    constructor ()
      ensures Valid() && nodes == map[] && traceMetadata == map[] && sourceGraphs == map[] && sourcePatches == map[]
    {
      nodes, traceMetadata, sourceGraphs, sourcePatches := map[], map[], map[], map[];
    }

    method Insert(n: Node) returns (r: Result<(), InsertError>)
      requires Valid()
      modifies `nodes
      ensures Valid()
      ensures var after := Insertion(old(nodes), n);
              if after.Success? then r == Success(()) && nodes == after.value
              else r == Failure(after.error) && nodes == old(nodes)
    {
      hide SortBy, StringLeq, InOrder, FirstClash, FirstPair, StrictlySorted, KindAndId;
      InsertionFacts(nodes, n);
      if n.uid in nodes {
        return Failure(DuplicateUid(n.uid));
      }
      var clash := FindClash(nodes, n);
      if clash.Some? {
        return Failure(DuplicateHumanId(n.id, Kind(n), clash.value, n.uid));
      }
      var pair := FindPair(Canonical(n).edges);
      if pair.Some? {
        return Failure(DuplicateEdge(n.uid, pair.value.1, pair.value.0));
      }
      nodes := nodes[n.uid := Canonical(n)];
      r := Success(());
    }

    method InsertWithTraceMetadata(n: Node, metadata: TraceMetadata) returns (r: Result<(), InsertError>)
      requires Valid()
      modifies `nodes, `traceMetadata
      ensures Valid()
      ensures var after := Insertion(old(nodes), n);
              if after.Success? then r == Success(()) && nodes == after.value && traceMetadata == old(traceMetadata)[n.uid := metadata]
              else r == Failure(after.error) && nodes == old(nodes) && traceMetadata == old(traceMetadata)
    {
      r := Insert(n);
      if r.Success? {
        traceMetadata := traceMetadata[n.uid := metadata];
      }
    }

    method InsertSourcePatch(p: Patch<D, Op>) returns (r: Result<(), PatchInsertError>)
      requires Valid()
      modifies `sourcePatches
      ensures Valid()
      ensures var after := PatchInsertion(old(sourcePatches), p);
              if after.Success? then r == Success(()) && sourcePatches == after.value
              else r == Failure(after.error) && sourcePatches == old(sourcePatches)
    {
      PatchInsertionExact(sourcePatches, p);
      if p.uid in sourcePatches {
        return Failure(DuplicatePatchUid(p.uid));
      }
      var tree := sourcePatches;
      var keys := KeysInOrder(tree);
      var i := 0;
      while i < |keys|
        invariant 0 <= i <= |keys|
        invariant FirstPatchClash(tree, keys, p.humanId) == FirstPatchClash(tree, keys[i..], p.humanId)
      {
        if keys[i] in tree && tree[keys[i]].humanId == p.humanId {
          return Failure(DuplicatePatchHumanId(p.humanId, keys[i], p.uid));
        }
        i := i + 1;
      }
      sourcePatches := tree[p.uid := p];
      r := Success(());
    }
  }

  // ------------------------------------------------- loading in any order

  /** Inserting a list of nodes, stopping at the first failure. */
  ghost function LoadAll(nodes: map<string, Node>, list: seq<Node>): Result<map<string, Node>, InsertError>
    decreases |list|
  {
    if list == [] then Success(nodes)
    else
      match Insertion(nodes, list[0])
      case Failure(e) => Failure(e)
      case Success(after) => LoadAll(after, list[1..])
  }

  ghost predicate Loadable(list: seq<Node>) {
    && DistinctKeys(Uid, list)
    && DistinctKeys(KindAndId, list)
    && forall n :: n in list ==> StrictlySorted(EdgeLeq, Canonical(n).edges)
  }

  ghost predicate Fresh(nodes: map<string, Node>, list: seq<Node>) {
    forall n, u :: n in list && u in nodes ==> u != n.uid && KindAndId(nodes[u]) != KindAndId(n)
  }

  /** `m` holds the old nodes and the canonical form of each listed one. */
  ghost predicate Holds(m: map<string, Node>, nodes: map<string, Node>, list: seq<Node>) {
    && (forall u :: u in nodes ==> u in m && m[u] == nodes[u])
    && (forall n :: n in list ==> n.uid in m && m[n.uid] == Canonical(n))
    && (forall u :: u in m ==> u in nodes || exists n :: n in list && n.uid == u)
  }

  lemma LoadableCons(list: seq<Node>)
    requires list != []
    ensures var n := list[0];
            Loadable(list) <==> Loadable(list[1..]) && StrictlySorted(EdgeLeq, Canonical(n).edges) &&
                                forall x :: x in list[1..] ==> x.uid != n.uid && KindAndId(x) != KindAndId(n)
  {
    hide StrictlySorted, Canonical;
    var t := list[1..];
    assert list == [list[0]] + t;
    if forall x :: x in t ==> x.uid != list[0].uid && KindAndId(x) != KindAndId(list[0]) {
      assert forall j :: 0 < j < |list| ==> list[j] in t;
    } else {
      var x :| x in t && !(x.uid != list[0].uid && KindAndId(x) != KindAndId(list[0]));
      var j :| 0 <= j < |t| && t[j] == x;
      assert list[j + 1] == x;
    }
    assert forall i :: 0 <= i < |t| ==> t[i] == list[i + 1];
    DistinctTail(Uid, list);
    DistinctTail(KindAndId, list);
  }

  lemma DistinctTail<T, K>(key: T -> K, s: seq<T>)
    requires s != []
    ensures DistinctKeys(key, s) <==> DistinctKeys(key, s[1..]) && forall x :: x in s[1..] ==> key(x) != key(s[0])
  {
    var t := s[1..];
    assert forall i :: 0 <= i < |t| ==> t[i] == s[i + 1];
    if DistinctKeys(key, t) && forall x :: x in t ==> key(x) != key(s[0]) {
      forall i, j | 0 <= i < j < |s| ensures key(s[i]) != key(s[j]) {
        assert s[j] in t;
        if i > 0 { assert key(t[i - 1]) != key(t[j - 1]); }
      }
    }
    if DistinctKeys(key, s) {
      forall i, j | 0 <= i < j < |t| ensures key(t[i]) != key(t[j]) {
        assert key(s[i + 1]) != key(s[j + 1]);
      }
    }
  }

  lemma EmptyLoadable(nodes: map<string, Node>)
    ensures Loadable([]) && Fresh(nodes, []) && Holds(nodes, nodes, [])
  {
  }

  lemma FreshCons(nodes: map<string, Node>, list: seq<Node>)
    requires list != []
    ensures var n, t := list[0], list[1..];
            var distinct := forall x :: x in t ==> x.uid != n.uid && KindAndId(x) != KindAndId(n);
            var headFresh := n.uid !in nodes && forall u :: u in nodes ==> KindAndId(nodes[u]) != KindAndId(n);
            distinct && Fresh(nodes, list) <==> headFresh && Fresh(nodes[n.uid := Canonical(n)], t)
  {
    hide Canonical, KindAndId;
    var n, t := list[0], list[1..];
    var after := nodes[n.uid := Canonical(n)];
    assert list == [n] + t;
    assert forall x :: x in list <==> x == n || x in t;
    assert after[n.uid] == Canonical(n) && n in list;
    if n.uid !in nodes && (forall u :: u in nodes ==> KindAndId(nodes[u]) != KindAndId(n)) && Fresh(after, t) {
      forall x, u | x in list && u in nodes ensures u != x.uid && KindAndId(nodes[u]) != KindAndId(x) {
        assert u in after && after[u] == nodes[u];
      }
    }
  }

  lemma HoldsCons(m: map<string, Node>, nodes: map<string, Node>, list: seq<Node>)
    requires list != [] && list[0].uid !in nodes
    requires Holds(m, nodes[list[0].uid := Canonical(list[0])], list[1..])
    ensures Holds(m, nodes, list)
  {
    hide Canonical;
    var after := nodes[list[0].uid := Canonical(list[0])];
    assert list == [list[0]] + list[1..];
    assert list[0].uid in after && after[list[0].uid] == Canonical(list[0]);
    forall u | u in nodes ensures u in m && m[u] == nodes[u] {
      assert u in after && after[u] == nodes[u];
    }
  }

  /** A load succeeds exactly when no uid, no id within a kind and no edge of a
      node repeats, among the listed nodes and against those already present;
      the result then holds the old nodes and each listed one, edges sorted. */
  lemma {:induction false} LoadExact(nodes: map<string, Node>, list: seq<Node>)
    requires WellKeyed(nodes)
    ensures LoadAll(nodes, list).Success? <==> Loadable(list) && Fresh(nodes, list)
    ensures LoadAll(nodes, list).Success? ==> WellKeyed(LoadAll(nodes, list).value) && Holds(LoadAll(nodes, list).value, nodes, list)
    decreases |list|
  {
    hide StrictlySorted, Canonical, Insertion, Loadable, Fresh, Holds, WellKeyed;
    if list == [] {
      EmptyLoadable(nodes);
    } else {
      InsertionFacts(nodes, list[0]);
      LoadableCons(list);
      FreshCons(nodes, list);
      if Insertion(nodes, list[0]).Success? {
        LoadExact(Insertion(nodes, list[0]).value, list[1..]);
        if LoadAll(nodes, list).Success? {
          HoldsCons(LoadAll(nodes, list).value, nodes, list);
        }
      }
    }
  }

  lemma HeldWithin(m: map<string, Node>, k: map<string, Node>, a: seq<Node>, b: seq<Node>, u: string)
    requires Holds(m, map[], a) && Holds(k, map[], b) && u in m
    requires forall n :: n in a ==> exists x :: x in b && Canonical(x) == Canonical(n)
    ensures u in k && k[u] == m[u]
  {
    hide Canonical;
    var n :| n in a && n.uid == u;
    var x :| x in b && Canonical(x) == Canonical(n);
    assert Canonical(x).uid == x.uid;
    assert Canonical(n).uid == n.uid;
  }

  lemma HeldUnique(m: map<string, Node>, k: map<string, Node>, a: seq<Node>, b: seq<Node>)
    requires Holds(m, map[], a) && Holds(k, map[], b)
    requires multiset(MapSeq(Canonical, a)) == multiset(MapSeq(Canonical, b))
    ensures m == k
  {
    hide Canonical, MapSeq, Holds;
    CanonicalElements(a, b);
    CanonicalElements(b, a);
    forall u | u in m ensures u in k && k[u] == m[u] { HeldWithin(m, k, a, b, u); }
    forall u | u in k ensures u in m { HeldWithin(k, m, b, a, u); }
  }

  lemma CanonicalElements(a: seq<Node>, b: seq<Node>)
    requires multiset(MapSeq(Canonical, a)) == multiset(MapSeq(Canonical, b))
    ensures forall n :: n in a ==> exists x :: x in b && Canonical(x) == Canonical(n)
  {
    hide Canonical, MapSeq;
    PermutationElements(MapSeq(Canonical, a), MapSeq(Canonical, b));
    forall n | n in a ensures exists x :: x in b && Canonical(x) == Canonical(n) {
      var i :| 0 <= i < |a| && a[i] == n;
      assert MapSeq(Canonical, a)[i] in MapSeq(Canonical, b);
      var j :| 0 <= j < |b| && MapSeq(Canonical, b)[j] == Canonical(n);
      assert b[j] in b;
    }
  }

  lemma LoadableCanonically(a: seq<Node>, b: seq<Node>)
    requires multiset(MapSeq(Canonical, a)) == multiset(MapSeq(Canonical, b))
    requires Loadable(a)
    ensures Loadable(b)
  {
    hide Canonical, MapSeq, StrictlySorted, KindAndId;
    CanonicalElements(b, a);
    var ca, cb := MapSeq(Canonical, a), MapSeq(Canonical, b);
    assert DistinctKeys(Uid, ca) && DistinctKeys(KindAndId, ca);
    DistinctKeysPermute(Uid, ca, cb);
    DistinctKeysPermute(KindAndId, ca, cb);
    forall i, j | 0 <= i < j < |b| ensures Uid(b[i]) != Uid(b[j]) && KindAndId(b[i]) != KindAndId(b[j]) {
      assert Uid(cb[i]) != Uid(cb[j]) && KindAndId(cb[i]) != KindAndId(cb[j]);
    }
    assert DistinctKeys(Uid, b) && DistinctKeys(KindAndId, b);
  }

  /** Loading does not depend on the order of the records, nor on the order of
      the edges inside one: two layouts of the same nodes both load, to the same
      graph, or both fail. */
  lemma LoadOrderFree(a: seq<Node>, b: seq<Node>)
    requires multiset(MapSeq(Canonical, a)) == multiset(MapSeq(Canonical, b))
    ensures LoadAll(map[], a).Success? <==> LoadAll(map[], b).Success?
    ensures LoadAll(map[], a).Success? ==> LoadAll(map[], a) == LoadAll(map[], b)
  {
    hide Canonical, MapSeq, Loadable, Holds, LoadAll;
    LoadExact(map[], a);
    LoadExact(map[], b);
    if Loadable(a) { LoadableCanonically(a, b); }
    if Loadable(b) { LoadableCanonically(b, a); }
    if LoadAll(map[], a).Success? {
      HeldUnique(LoadAll(map[], a).value, LoadAll(map[], b).value, a, b);
    }
  }
}
