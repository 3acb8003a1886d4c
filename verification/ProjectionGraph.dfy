/** The stored dependency graph compared with the resolved one. */
module ProjectionGraph {
  import opened Ordering
  import opened CargoGraph
  import opened BoundaryRules
  import opened CargoMetadata
  import opened Wrappers

  // --------------------------------------------------------------- isomorphism

  /** No two resolved ids share a `"name version"` identity. */
  ghost predicate Injective(ids: map<string, string>, nodes: seq<Node>) {
    forall a, b :: Resolved(nodes, a) && Resolved(nodes, b) && a in ids && b in ids && ids[a] == ids[b] ==> a == b
  }

  /** Renaming ids to identities preserves and reflects every dependency path. */
  ghost predicate SamePaths(ids: map<string, string>, nodes: seq<Node>, g: Graph) {
    forall a, b :: Resolved(nodes, a) && Resolved(nodes, b) && a in ids && b in ids ==>
      (Reaches(NodeGraph(nodes), a, b) <==> Reaches(g, ids[a], ids[b]))
  }

  ghost predicate Projected(ids: map<string, string>, nodes: seq<Node>, g: Graph) {
    ProjectNodes(ids, nodes) == Success(g)
  }

  lemma DistinctOnSuccess(ids: map<string, string>, nodes: seq<Node>, g: Graph)
    requires Projected(ids, nodes, g)
    ensures DistinctNodes(nodes)
    ensures forall id :: Resolved(nodes, id) ==> id in ids
    ensures forall m, n :: m in nodes && n in nodes && m.id in ids && n.id in ids && ids[m.id] == ids[n.id] ==> m == n
  {
    ProjectionMeaning(ids, nodes);
    forall n | n in nodes ensures Resolved(nodes, n.id) {
    }
  }

  /** An edge of the resolved graph is a node listing a dependency. */
  lemma RawEdge(ids: map<string, string>, nodes: seq<Node>, g: Graph, a: string, b: string)
    requires Projected(ids, nodes, g)
    ensures Edge(NodeGraph(nodes), a, b) <==> exists n :: n in nodes && n.id == a && b in n.deps
  {
    DistinctOnSuccess(ids, nodes, g);
    AdjacencyKeys(nodes);
    AdjacencyEdges(nodes);
  }

  /** An edge of the projection is some node listing some dependency. */
  lemma StoredEdge(ids: map<string, string>, nodes: seq<Node>, g: Graph, x: string, y: string)
    requires Projected(ids, nodes, g)
    requires forall id :: Resolved(nodes, id) ==> id in ids
    ensures Edge(g, x, y) <==> exists n, d :: n in nodes && d in n.deps && n.id in ids && d in ids && ids[n.id] == x && ids[d] == y
  {
    ProjectionMeaning(ids, nodes);
    forall n, d | n in nodes && d in n.deps ensures n.id in ids && d in ids {
      assert Resolved(nodes, n.id) && Resolved(nodes, d);
    }
    if Edge(g, x, y) {
      var n :| n in nodes && ids[n.id] == x;
      assert g[x] == Images(ids, n.deps);
      var d :| d in n.deps && ids[d] == y;
    }
  }

  lemma {:induction false} PathProjects(ids: map<string, string>, nodes: seq<Node>, g: Graph, p: seq<string>)
    requires Projected(ids, nodes, g)
    requires forall id :: Resolved(nodes, id) ==> id in ids
    requires IsPath(NodeGraph(nodes), p) && Resolved(nodes, p[0])
    ensures Resolved(nodes, p[|p| - 1]) && Reaches(g, ids[p[0]], ids[p[|p| - 1]])
  {
    hide NodeGraph;
    if |p| == 1 {
      ReachesSelf(g, ids[p[0]]);
    } else {
      var q := p[..|p| - 1];
      forall i | 0 <= i < |q| - 1 ensures Edge(NodeGraph(nodes), q[i], q[i + 1]) {
        assert Edge(NodeGraph(nodes), p[i], p[i + 1]);
      }
      PathProjects(ids, nodes, g, q);
      var a, b := p[|p| - 2], p[|p| - 1];
      assert a == q[|q| - 1];
      assert Edge(NodeGraph(nodes), p[|p| - 2], p[|p| - 2 + 1]);
      RawEdge(ids, nodes, g, a, b);
      var n :| n in nodes && n.id == a && b in n.deps;
      assert Resolved(nodes, b);
      StoredEdge(ids, nodes, g, ids[a], ids[b]);
      ReachesStep(g, ids[p[0]], ids[a], ids[b]);
    }
  }

  lemma {:induction false} PathLifts(ids: map<string, string>, nodes: seq<Node>, g: Graph, p: seq<string>, a: string)
    returns (b: string)
    requires Projected(ids, nodes, g) && Injective(ids, nodes)
    requires forall id :: Resolved(nodes, id) ==> id in ids
    requires IsPath(g, p) && Resolved(nodes, a) && p[0] == ids[a]
    ensures Resolved(nodes, b) && ids[b] == p[|p| - 1] && Reaches(NodeGraph(nodes), a, b)
  {
    hide NodeGraph;
    if |p| == 1 {
      b := a;
      ReachesSelf(NodeGraph(nodes), a);
    } else {
      var q := p[..|p| - 1];
      forall i | 0 <= i < |q| - 1 ensures Edge(g, q[i], q[i + 1]) {
        assert Edge(g, p[i], p[i + 1]);
      }
      var c := PathLifts(ids, nodes, g, q, a);
      assert Edge(g, p[|p| - 2], p[|p| - 2 + 1]);
      StoredEdge(ids, nodes, g, p[|p| - 2], p[|p| - 1]);
      var n, d :| n in nodes && d in n.deps && ids[n.id] == p[|p| - 2] && ids[d] == p[|p| - 1];
      assert Resolved(nodes, n.id) && Resolved(nodes, d);
      assert n.id == c;
      b := d;
      RawEdge(ids, nodes, g, c, d);
      ReachesStep(NodeGraph(nodes), a, c, d);
    }
  }

  lemma InjectiveSamePaths(ids: map<string, string>, nodes: seq<Node>, g: Graph)
    requires Projected(ids, nodes, g) && Injective(ids, nodes)
    ensures SamePaths(ids, nodes, g)
  {
    hide NodeGraph;
    DistinctOnSuccess(ids, nodes, g);
    forall a, b | Resolved(nodes, a) && Resolved(nodes, b)
      ensures Reaches(NodeGraph(nodes), a, b) <==> Reaches(g, ids[a], ids[b])
    {
      if Reaches(NodeGraph(nodes), a, b) {
        var p :| PathBetween(NodeGraph(nodes), p, a, b);
        PathProjects(ids, nodes, g, p);
      }
      if Reaches(g, ids[a], ids[b]) {
        var p :| PathBetween(g, p, ids[a], ids[b]);
        var c := PathLifts(ids, nodes, g, p, a);
        assert c == b;
      }
    }
  }

  /** A resolved id without a node of its own leads nowhere. */
  lemma LeafReachesItself(ids: map<string, string>, nodes: seq<Node>, g: Graph, a: string, b: string)
    requires Projected(ids, nodes, g)
    requires forall n :: n in nodes ==> n.id != a
    ensures Reaches(NodeGraph(nodes), a, b) ==> a == b
  {
    hide NodeGraph;
    if Reaches(NodeGraph(nodes), a, b) {
      forall y ensures !Edge(NodeGraph(nodes), a, y) {
        RawEdge(ids, nodes, g, a, y);
      }
      ClosedHoldsReachable(NodeGraph(nodes), {a}, a, b);
    }
  }

  lemma SamePathsInjective(ids: map<string, string>, nodes: seq<Node>, g: Graph)
    requires Projected(ids, nodes, g) && SamePaths(ids, nodes, g)
    ensures Injective(ids, nodes)
  {
    hide NodeGraph;
    DistinctOnSuccess(ids, nodes, g);
    forall a, b | Resolved(nodes, a) && Resolved(nodes, b) && ids[a] == ids[b] ensures a == b {
      ReachesSelf(g, ids[a]);
      assert Reaches(NodeGraph(nodes), a, b) && Reaches(NodeGraph(nodes), b, a);
      if forall n :: n in nodes ==> n.id != a {
        LeafReachesItself(ids, nodes, g, a, b);
      } else if forall n :: n in nodes ==> n.id != b {
        LeafReachesItself(ids, nodes, g, b, a);
      }
    }
  }

  /** Main result: a successful projection carries exactly the dependency paths
      of the resolved graph if and only if no two resolved ids, nodes and
      dependencies alike, share an identity. */
  lemma ProjectionIsomorphism(ids: map<string, string>, nodes: seq<Node>, g: Graph)
    requires Projected(ids, nodes, g)
    ensures SamePaths(ids, nodes, g) <==> Injective(ids, nodes)
  {
    hide Injective, SamePaths;
    if Injective(ids, nodes) {
      InjectiveSamePaths(ids, nodes, g);
    }
    if SamePaths(ids, nodes, g) {
      SamePathsInjective(ids, nodes, g);
    }
  }

  /** The closure cargo guarantees: every dependency is itself a resolve node. */
  ghost predicate Closed(nodes: seq<Node>) {
    forall n, d :: n in nodes && d in n.deps ==> exists m :: m in nodes && m.id == d
  }

  lemma ClosedIsInjective(ids: map<string, string>, nodes: seq<Node>, g: Graph)
    requires Projected(ids, nodes, g) && Closed(nodes)
    ensures Injective(ids, nodes) && SamePaths(ids, nodes, g)
  {
    DistinctOnSuccess(ids, nodes, g);
    forall a, b | Resolved(nodes, a) && Resolved(nodes, b) && ids[a] == ids[b] ensures a == b {
      var m :| m in nodes && m.id == a;
      var n :| n in nodes && n.id == b;
    }
    ProjectionIsomorphism(ids, nodes, g);
  }

  /** Without the closure the projection can succeed and still merge two
      packages: `b2` is no node, but its identity is that of node `b`. */
  lemma AliasedDependency() returns (ids: map<string, string>, nodes: seq<Node>, g: Graph)
    ensures Projected(ids, nodes, g) && !SamePaths(ids, nodes, g)
  {
    ids := map["a" := "a 1", "b" := "b 1", "b2" := "b 1"];
    nodes := [Node("a", ["b2"]), Node("b", [])];
    g := map["a 1" := {"b 1"}, "b 1" := {}];
    assert nodes[..1] == [nodes[0]] && nodes[..1][..0] == [];
    assert ["b2"][..0] == [] && Resolve(ids, []) == Success({});
    assert {} + {ids["b2"]} == {"b 1"};
    assert Resolve(ids, ["b2"]) == Success({"b 1"});
    assert ProjectNodes(ids, nodes[..1]) == Success(map["a 1" := {"b 1"}]);
    assert nodes[1] in nodes && nodes[0] in nodes;
    assert Resolved(nodes, "b") && Resolved(nodes, "b2");
    ProjectionIsomorphism(ids, nodes, g);
  }

  // ---------------------------------------------------------------- determinism

  /** Packages that repeat a resolved id repeat its identity. */
  ghost predicate ConsistentIds(packages: seq<Package>, nodes: seq<Node>) {
    forall p, q :: p in packages && q in packages && p.id == q.id && Resolved(nodes, p.id) ==> IdentityOf(p) == IdentityOf(q)
  }

  lemma {:induction false} IdentitiesMeaning(packages: seq<Package>)
    ensures forall id :: id in Identities(packages) <==> exists p :: p in packages && p.id == id
    ensures forall id :: id in Identities(packages) ==> exists p :: p in packages && p.id == id && IdentityOf(p) == Identities(packages)[id]
  {
    hide IdentityOf;
    if packages != [] {
      var rest := packages[..|packages| - 1];
      IdentitiesMeaning(rest);
      assert packages == rest + [packages[|packages| - 1]];
    }
  }

  /** The two maps say the same of every id that is resolved. */
  ghost predicate AgreeOn(ids: map<string, string>, ids': map<string, string>, nodes: seq<Node>) {
    forall id :: Resolved(nodes, id) ==> (id in ids <==> id in ids') && (id in ids && id in ids' ==> ids[id] == ids'[id])
  }

  lemma IdentitiesOrderFree(packages: seq<Package>, packages': seq<Package>, nodes: seq<Node>)
    requires ConsistentIds(packages, nodes)
    requires forall p :: p in packages <==> p in packages'
    ensures AgreeOn(Identities(packages), Identities(packages'), nodes)
  {
    hide IdentityOf, Resolved;
    IdentitiesMeaning(packages);
    IdentitiesMeaning(packages');
    var a, b := Identities(packages), Identities(packages');
    forall id | Resolved(nodes, id) && id in a && id in b ensures a[id] == b[id] {
      var p :| p in packages && p.id == id && IdentityOf(p) == a[id];
      var q :| q in packages' && q.id == id && IdentityOf(q) == b[id];
    }
  }

  lemma {:induction false} ResolveAgrees(ids: map<string, string>, ids': map<string, string>, deps: seq<string>)
    requires forall d :: d in deps ==> (d in ids <==> d in ids') && (d in ids && d in ids' ==> ids[d] == ids'[d])
    ensures Resolve(ids, deps) == Resolve(ids', deps)
  {
    if deps != [] {
      assert deps == deps[..|deps| - 1] + [deps[|deps| - 1]];
      ResolveAgrees(ids, ids', deps[..|deps| - 1]);
    }
  }

  /** The projection looks only at resolved ids. */
  lemma {:induction false} ProjectAgrees(ids: map<string, string>, ids': map<string, string>, nodes: seq<Node>)
    requires AgreeOn(ids, ids', nodes)
    ensures ProjectNodes(ids, nodes) == ProjectNodes(ids', nodes)
  {
    hide Resolve;
    if nodes != [] {
      var rest, last := nodes[..|nodes| - 1], nodes[|nodes| - 1];
      assert nodes == rest + [last];
      forall id ensures Resolved(nodes, id) <==> Resolved(rest, id) || id == last.id || id in last.deps {
        assert last in nodes;
      }
      ProjectAgrees(ids, ids', rest);
      ResolveAgrees(ids, ids', last.deps);
    }
  }

  /** A node up to the order of its dependency list. */
  function Shape(n: Node): (string, set<string>) { (n.id, set d | d in n.deps) }

  function Shapes(nodes: seq<Node>): seq<(string, set<string>)> { MapSeq(Shape, nodes) }

  ghost predicate SameNodes(nodes: seq<Node>, nodes': seq<Node>) {
    multiset(Shapes(nodes)) == multiset(Shapes(nodes'))
  }

  lemma SameNodesMatch(nodes: seq<Node>, nodes': seq<Node>)
    requires SameNodes(nodes, nodes')
    ensures forall n :: n in nodes ==> exists n' :: n' in nodes' && Shape(n) == Shape(n')
  {
    PermutationElements(Shapes(nodes), Shapes(nodes'));
    forall n | n in nodes ensures exists n' :: n' in nodes' && Shape(n) == Shape(n') {
      var i :| 0 <= i < |nodes| && nodes[i] == n;
      assert Shapes(nodes)[i] in Shapes(nodes');
      var j :| 0 <= j < |nodes'| && Shapes(nodes')[j] == Shape(n);
    }
  }

  function ShapeIdentity(ids: map<string, string>, s: (string, set<string>)): string {
    if s.0 in ids then ids[s.0] else ""
  }

  lemma ProjectableTransfers(ids: map<string, string>, nodes: seq<Node>, nodes': seq<Node>)
    requires SameNodes(nodes, nodes') && Projectable(ids, nodes)
    ensures Projectable(ids, nodes')
  {
    SameNodesMatch(nodes', nodes);
    forall id | Resolved(nodes', id) ensures id in ids {
      var n' :| n' in nodes' && (id == n'.id || id in n'.deps);
      var n :| n in nodes && Shape(n') == Shape(n);
      assert id in Shape(n').1 <==> id in n'.deps;
      assert Resolved(nodes, id);
    }
    var key := s => ShapeIdentity(ids, s);
    forall n | n in nodes || n in nodes' ensures n.id in ids {
      assert Resolved(nodes, n.id) || Resolved(nodes', n.id);
    }
    assert DistinctKeys(key, Shapes(nodes)) by {
      forall i, j | 0 <= i < j < |nodes| ensures key(Shapes(nodes)[i]) != key(Shapes(nodes)[j]) {
        assert nodes[i] in nodes && nodes[j] in nodes;
      }
    }
    DistinctKeysPermute(key, Shapes(nodes), Shapes(nodes'));
    forall i, j | 0 <= i < j < |nodes'| ensures ids[nodes'[i].id] != ids[nodes'[j].id] {
      assert nodes'[i] in nodes' && nodes'[j] in nodes';
      assert key(Shapes(nodes')[i]) != key(Shapes(nodes')[j]);
    }
  }

  lemma SameShapeSameImages(ids: map<string, string>, n: Node, n': Node)
    requires Shape(n) == Shape(n')
    requires forall d :: d in n.deps ==> d in ids
    ensures forall d :: d in n'.deps ==> d in ids
    ensures n.id == n'.id && Images(ids, n.deps) == Images(ids, n'.deps)
  {
    assert forall d :: d in n.deps <==> d in Shape(n).1;
    assert forall d :: d in n'.deps <==> d in Shape(n').1;
  }

  /** What `ProjectionMeaning` says of a successful projection. */
  ghost predicate Describes(ids: map<string, string>, nodes: seq<Node>, g: Graph) {
    && (forall n, d :: n in nodes && d in n.deps ==> d in ids)
    && (forall n :: n in nodes ==> n.id in ids && ids[n.id] in g)
    && (forall k :: k in g ==> exists n :: n in nodes && ids[n.id] == k && g[k] == Images(ids, n.deps))
    && (forall n :: n in nodes ==> g[ids[n.id]] == Images(ids, n.deps))
  }

  lemma ProjectionDescribes(ids: map<string, string>, nodes: seq<Node>)
    requires ProjectNodes(ids, nodes).Success?
    ensures Describes(ids, nodes, ProjectNodes(ids, nodes).value)
  {
    ProjectionMeaning(ids, nodes);
    forall n, d | n in nodes && d in n.deps ensures d in ids {
      assert Resolved(nodes, d);
    }
    forall n | n in nodes ensures n.id in ids {
      assert Resolved(nodes, n.id);
    }
  }

  lemma DescribedEntry(ids: map<string, string>, nodes: seq<Node>, nodes': seq<Node>, g: Graph, g': Graph, k: string)
    requires Describes(ids, nodes, g) && Describes(ids, nodes', g') && SameNodes(nodes, nodes')
    ensures k in g ==> k in g' && g[k] == g'[k]
  {
    SameNodesMatch(nodes, nodes');
    hide SameNodes, Shape, Images;
    if k in g {
      var n :| n in nodes && ids[n.id] == k && g[k] == Images(ids, n.deps);
      var n' :| n' in nodes' && Shape(n) == Shape(n');
      SameShapeSameImages(ids, n, n');
    }
  }

  lemma SameNodesSucceed(ids: map<string, string>, nodes: seq<Node>, nodes': seq<Node>)
    requires SameNodes(nodes, nodes')
    requires ProjectNodes(ids, nodes).Success?
    ensures ProjectNodes(ids, nodes').Success?
  {
    hide Projectable, SameNodes;
    ProjectionMeaning(ids, nodes);
    ProjectableTransfers(ids, nodes, nodes');
    ProjectionMeaning(ids, nodes');
  }

  lemma SameNodesProject(ids: map<string, string>, nodes: seq<Node>, nodes': seq<Node>)
    requires SameNodes(nodes, nodes')
    requires ProjectNodes(ids, nodes).Success?
    ensures ProjectNodes(ids, nodes') == ProjectNodes(ids, nodes)
  {
    SameNodesSymmetric(nodes, nodes');
    hide SameNodes, Describes, ProjectNodes;
    SameNodesSucceed(ids, nodes, nodes');
    ProjectionDescribes(ids, nodes);
    ProjectionDescribes(ids, nodes');
    var g, g' := ProjectNodes(ids, nodes).value, ProjectNodes(ids, nodes').value;
    forall k ensures (k in g <==> k in g') && (k in g ==> g[k] == g'[k]) {
      DescribedEntry(ids, nodes, nodes', g, g', k);
      DescribedEntry(ids, nodes', nodes, g', g, k);
    }
    assert g == g';
  }

  ghost predicate DistinctNames(packages: seq<Package>) {
    forall i, j :: 0 <= i < j < |packages| ==> packages[i].name != packages[j].name
  }

  /** Main result: the order of packages, of nodes and of dependency lists never
      decides whether the projection succeeds nor what graph it stores; the
      package list is the same too when names are distinct. */
  lemma ProjectionOrderFree(m: Metadata, m': Metadata)
    requires ConsistentIds(m.packages, m.nodes)
    requires multiset(m.packages) == multiset(m'.packages) && SameNodes(m.nodes, m'.nodes)
    ensures FromRawMetadata(m).Success? <==> FromRawMetadata(m').Success?
    ensures FromRawMetadata(m).Success? ==> FromRawMetadata(m).value.dependencies == FromRawMetadata(m').value.dependencies
    ensures FromRawMetadata(m).Success? && DistinctNames(m.packages) ==> FromRawMetadata(m) == FromRawMetadata(m')
  {
    hide ProjectNodes, SameNodes, ConsistentIds, AgreeOn;
    PermutationElements(m.packages, m'.packages);
    IdentitiesOrderFree(m.packages, m'.packages, m.nodes);
    var ids, ids' := Identities(m.packages), Identities(m'.packages);
    ProjectAgrees(ids, ids', m.nodes);
    SameNodesSymmetric(m.nodes, m'.nodes);
    if ProjectNodes(ids', m.nodes).Success? {
      SameNodesProject(ids', m.nodes, m'.nodes);
    }
    if ProjectNodes(ids', m'.nodes).Success? {
      SameNodesProject(ids', m'.nodes, m.nodes);
    }
    if DistinctNames(m.packages) {
      StringOrder();
      MapPermutation(Project, m.packages, m'.packages);
      SortByCanonical(NameOfProjection, StringLeq, ProjectAll(m.packages), ProjectAll(m'.packages));
    }
  }

  lemma IdentitiesSnoc(packages: seq<Package>, p: Package)
    ensures Identities(packages + [p]) == Identities(packages)[p.id := IdentityOf(p)]
  {
    hide IdentityOf;
    assert (packages + [p])[..|packages|] == packages;
  }

  lemma UpdateBefore(a: map<string, string>, b: map<string, string>, k: string, v: string, l: string, w: string)
    requires a[k := v] == b[k := v]
    ensures a[l := w][k := v] == b[l := w][k := v]
  {
    forall x | x != k ensures (x in a <==> x in b) && (x in a ==> a[x] == b[x]) {
      assert x in a[k := v] <==> x in b[k := v];
      assert x in a ==> a[k := v][x] == b[k := v][x];
    }
  }

  /** Moving a package to the end gives its id its identity, and leaves every
      other id alone. */
  lemma {:induction false} MovedLast(packages: seq<Package>, i: nat)
    requires i < |packages|
    ensures Identities(Without(packages, i) + [packages[i]]) == Identities(packages)[packages[i].id := IdentityOf(packages[i])]
    decreases |packages|
  {
    hide IdentityOf, Identities;
    var p, n := packages[i], |packages| - 1;
    var front, last := packages[..n], packages[n];
    assert packages == front + [last];
    IdentitiesSnoc(front, last);
    IdentitiesSnoc(Without(packages, i), p);
    if i == n {
      assert Without(packages, i) == front;
      assert Identities(front)[p.id := IdentityOf(p)][p.id := IdentityOf(p)] == Identities(front)[p.id := IdentityOf(p)];
    } else {
      var rest := Without(front, i);
      assert front[i] == p;
      MovedLast(front, i);
      IdentitiesSnoc(rest, p);
      IdentitiesSnoc(rest, last);
      assert Without(packages, i) == rest + [last];
      UpdateBefore(Identities(rest), Identities(front), p.id, IdentityOf(p), last.id, IdentityOf(last));
    }
  }

  /** When the identity of a resolved node changes, so does the outcome: its old
      identity leaves the graph, or the new one collides. */
  lemma RenamedNode(ids: map<string, string>, nodes: seq<Node>, u: string, identity: string)
    requires ProjectNodes(ids, nodes).Success? && (exists n :: n in nodes && n.id == u)
    requires u in ids && ids[u] != identity
    ensures
      var after := ProjectNodes(ids[u := identity], nodes);
      after.Failure? || after.value != ProjectNodes(ids, nodes).value
  {
    hide ProjectNodes;
    var after := ProjectNodes(ids[u := identity], nodes);
    ProjectionMeaning(ids, nodes);
    ProjectionMeaning(ids[u := identity], nodes);
    DistinctOnSuccess(ids, nodes, ProjectNodes(ids, nodes).value);
    var n :| n in nodes && n.id == u;
    if after.Success? {
      assert ids[u] in ProjectNodes(ids, nodes).value;
      forall m | m in nodes ensures ids[u := identity][m.id] != ids[u] {
        assert Resolved(nodes, m.id);
      }
      assert ids[u] !in after.value;
    }
  }

  /** Two packages that share a node's id but not its identity: in some other
      order the projection fails or stores another graph. */
  lemma ConflictingIds(m: Metadata, p: Package, q: Package) returns (packages: seq<Package>)
    requires FromRawMetadata(m).Success? && p in m.packages && q in m.packages
    requires p.id == q.id && IdentityOf(p) != IdentityOf(q) && exists n :: n in m.nodes && n.id == p.id
    ensures multiset(packages) == multiset(m.packages)
    ensures
      var after := FromRawMetadata(Metadata(packages, m.workspaceMembers, m.nodes));
      after.Failure? || after.value.dependencies != FromRawMetadata(m).value.dependencies
  {
    hide IdentityOf, FromRawMetadata, Identities, Without, ProjectNodes;
    var ids := Identities(m.packages);
    IdentitiesMeaning(m.packages);
    var r := if ids[p.id] == IdentityOf(p) then q else p;
    var i :| 0 <= i < |m.packages| && m.packages[i] == r;
    packages := Without(m.packages, i) + [r];
    WithoutMultiset(m.packages, i);
    assert multiset(packages) == multiset(Without(m.packages, i)) + multiset{r};
    MovedLast(m.packages, i);
    Stored(m);
    Stored(Metadata(packages, m.workspaceMembers, m.nodes));
    RenamedNode(ids, m.nodes, r.id, IdentityOf(r));
  }

  /** The stored graph is the projection of the nodes. */
  lemma Stored(m: Metadata)
    ensures
      var g := ProjectNodes(Identities(m.packages), m.nodes);
      (FromRawMetadata(m).Success? <==> g.Success?) && (g.Success? ==> FromRawMetadata(m).value.dependencies == g.value)
  {
    hide Identities, ProjectNodes, SortedPackages;
  }

  /** Every order of the packages gives the same graph. */
  ghost predicate OrderFree(m: Metadata)
    requires FromRawMetadata(m).Success?
  {
    forall packages :: multiset(packages) == multiset(m.packages) ==>
      var after := FromRawMetadata(Metadata(packages, m.workspaceMembers, m.nodes));
      after.Success? && after.value.dependencies == FromRawMetadata(m).value.dependencies
  }

  /** Main result: when every dependency is a resolve node, a projection that
      succeeds does so in every order of the packages, with the same graph, if and
      only if packages that repeat a resolved id repeat its identity. */
  lemma OrderFreeExactly(m: Metadata)
    requires FromRawMetadata(m).Success? && Closed(m.nodes)
    ensures OrderFree(m) <==> ConsistentIds(m.packages, m.nodes)
  {
    hide IdentityOf, FromRawMetadata, ConsistentIds;
    if ConsistentIds(m.packages, m.nodes) {
      forall packages | multiset(packages) == multiset(m.packages)
        ensures var after := FromRawMetadata(Metadata(packages, m.workspaceMembers, m.nodes));
                after.Success? && after.value.dependencies == FromRawMetadata(m).value.dependencies
      {
        ProjectionOrderFree(m, Metadata(packages, m.workspaceMembers, m.nodes));
      }
    } else {
      var p, q := Conflict(m.packages, m.nodes);
      var packages := ConflictingIds(m, p, q);
    }
  }

  lemma Conflict(packages: seq<Package>, nodes: seq<Node>) returns (p: Package, q: Package)
    requires !ConsistentIds(packages, nodes) && Closed(nodes)
    ensures p in packages && q in packages && p.id == q.id && IdentityOf(p) != IdentityOf(q)
    ensures exists n :: n in nodes && n.id == p.id
  {
    hide IdentityOf;
    p, q :| p in packages && q in packages && p.id == q.id && Resolved(nodes, p.id) && IdentityOf(p) != IdentityOf(q);
  }

  lemma SameNodesSymmetric(nodes: seq<Node>, nodes': seq<Node>)
    ensures SameNodes(nodes, nodes') ==> SameNodes(nodes', nodes)
  {
  }

  /** The checks replayed on a stored projection give what the live checks gave. */
  lemma StoredChecksAgree(inScope: seq<string>, m: Metadata)
    requires FromRawMetadata(m).Success?
    ensures
      var stored := FromRawMetadata(m).value.packages;
      && CheckBuildRsInProjection(inScope, stored) == FindBuildRsViolations(inScope, m.packages)
      && CheckProcMacrosInProjection(inScope, stored) == FindProcMacroViolations(inScope, m.packages)
  {
    hide CheckBuildRsInProjection, CheckProcMacrosInProjection, FindBuildRsViolations, FindProcMacroViolations, ProjectNodes;
    StringOrder();
    var all, stored := ProjectAll(m.packages), SortedPackages(m.packages);
    SortByFacts(NameOfProjection, StringLeq, all);
    PermutationElements(all, stored);
    forall p | p in m.packages ensures Project(p) in stored {
      var i :| 0 <= i < |m.packages| && m.packages[i] == p;
      assert all[i] == Project(p);
    }
    forall q | q in stored ensures exists p :: p in m.packages && q == Project(p) {
      assert q in all;
      var i :| 0 <= i < |all| && all[i] == q;
      assert m.packages[i] in m.packages;
    }
    RecheckAgrees(inScope, m.packages, stored);
  }
}
