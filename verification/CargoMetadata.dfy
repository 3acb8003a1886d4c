/** The projection of `cargo metadata` that a bundle stores (`cargo_metadata.rs`). */
module CargoMetadata {
  import opened Ordering
  import opened Text
  import opened CargoGraph
  import opened BoundaryRules
  import opened Wrappers

  datatype ProjectionError =
    | UnresolvablePackageId(id: string)
    | AmbiguousPackageIdentity(identity: string)

  datatype Projection = Projection(packages: seq<PackageProjection>, dependencies: Graph)

  function IdentityOf(p: Package): string { p.name + " " + p.version }

  /** `id_to_identity`: the last package with an id wins. */
  function Identities(packages: seq<Package>): map<string, string> {
    if packages == [] then map[]
    else
      var last := packages[|packages| - 1];
      Identities(packages[..|packages| - 1])[last.id := IdentityOf(last)]
  }

  /** Name and version can be read back from an identity, so two packages share one
      only if they share both. */
  lemma IdentityExactly(p: Package, q: Package)
    requires ' ' !in p.name && ' ' !in q.name
    ensures SplitOnce(IdentityOf(p), ' ') == Some((p.name, p.version))
    ensures IdentityOf(p) == IdentityOf(q) <==> p.name == q.name && p.version == q.version
  {
    assert IdentityOf(p) == p.name + [' '] + p.version && IdentityOf(q) == q.name + [' '] + q.version;
    SplitOnceExact(p.name, ' ', p.version);
    SplitOnceExact(q.name, ' ', q.version);
  }

  /** Of several packages with an id, the last one gives the identity. */
  lemma {:induction false} LastIdentityWins(packages: seq<Package>, i: nat)
    requires i < |packages| && forall j :: i < j < |packages| ==> packages[j].id != packages[i].id
    ensures packages[i].id in Identities(packages) && Identities(packages)[packages[i].id] == packages[i].name + " " + packages[i].version
  {
    var rest := packages[..|packages| - 1];
    if i < |packages| - 1 {
      assert forall j :: 0 <= j < |rest| ==> rest[j] == packages[j];
      LastIdentityWins(rest, i);
    }
  }

  // ------------------------------------------------------------- specification

  /** The identities of a list of ids, or the first id that has none. */
  function Resolve(ids: map<string, string>, deps: seq<string>): Result<set<string>, ProjectionError> {
    if deps == [] then Success({})
    else
      match Resolve(ids, deps[..|deps| - 1])
      case Failure(e) => Failure(e)
      case Success(s) =>
        var d := deps[|deps| - 1];
        if d in ids then Success(s + {ids[d]}) else Failure(UnresolvablePackageId(d))
  }

  function Step(ids: map<string, string>, g: Graph, n: Node): Result<Graph, ProjectionError> {
    if n.id !in ids then Failure(UnresolvablePackageId(n.id))
    else
      match Resolve(ids, n.deps)
      case Failure(e) => Failure(e)
      case Success(s) =>
        if ids[n.id] in g then Failure(AmbiguousPackageIdentity(ids[n.id])) else Success(g[ids[n.id] := s])
  }

  function ProjectNodes(ids: map<string, string>, nodes: seq<Node>): Result<Graph, ProjectionError> {
    if nodes == [] then Success(map[])
    else
      match ProjectNodes(ids, nodes[..|nodes| - 1])
      case Failure(e) => Failure(e)
      case Success(g) => Step(ids, g, nodes[|nodes| - 1])
  }

  // ------------------------------------------------------------------ the code

  method ResolveAll(ids: map<string, string>, deps: seq<string>) returns (r: Result<set<string>, ProjectionError>)
    ensures r == Resolve(ids, deps)
  {
    var s: set<string> := {};
    for i := 0 to |deps|
      invariant Resolve(ids, deps[..i]) == Success(s)
    {
      assert deps[..i + 1][..i] == deps[..i];
      if deps[i] !in ids {
        ResolveStops(ids, deps, i + 1);
        return Failure(UnresolvablePackageId(deps[i]));
      }
      s := s + {ids[deps[i]]};
    }
    assert deps[..|deps|] == deps;
    r := Success(s);
  }

  lemma {:induction false} ResolveStops(ids: map<string, string>, deps: seq<string>, i: nat)
    requires i <= |deps| && Resolve(ids, deps[..i]).Failure?
    ensures Resolve(ids, deps) == Resolve(ids, deps[..i])
  {
    if i < |deps| {
      assert deps[..|deps| - 1][..i] == deps[..i];
      ResolveStops(ids, deps[..|deps| - 1], i);
    } else {
      assert deps[..i] == deps;
    }
  }

  method ProjectResolvedGraph(m: Metadata) returns (r: Result<Graph, ProjectionError>)
    ensures r == ProjectNodes(Identities(m.packages), m.nodes)
  {
    var ids := Identities(m.packages);
    var dependencies: Graph := map[];
    for i := 0 to |m.nodes|
      invariant ProjectNodes(ids, m.nodes[..i]) == Success(dependencies)
    {
      var node := m.nodes[i];
      assert m.nodes[..i + 1][..i] == m.nodes[..i];
      if node.id !in ids {
        ProjectStops(ids, m.nodes, i + 1);
        return Failure(UnresolvablePackageId(node.id));
      }
      var identity := ids[node.id];
      var deps := ResolveAll(ids, node.deps);
      if deps.Failure? {
        ProjectStops(ids, m.nodes, i + 1);
        return Failure(deps.error);
      }
      if identity in dependencies {
        ProjectStops(ids, m.nodes, i + 1);
        return Failure(AmbiguousPackageIdentity(identity));
      }
      dependencies := dependencies[identity := deps.value];
    }
    assert m.nodes[..|m.nodes|] == m.nodes;
    r := Success(dependencies);
  }

  lemma {:induction false} ProjectStops(ids: map<string, string>, nodes: seq<Node>, i: nat)
    requires i <= |nodes| && ProjectNodes(ids, nodes[..i]).Failure?
    ensures ProjectNodes(ids, nodes) == ProjectNodes(ids, nodes[..i])
  {
    if i < |nodes| {
      assert nodes[..|nodes| - 1][..i] == nodes[..i];
      ProjectStops(ids, nodes[..|nodes| - 1], i);
    } else {
      assert nodes[..i] == nodes;
    }
  }

  function NameOfProjection(p: PackageProjection): string { p.name }

  function SortedPackages(packages: seq<Package>): seq<PackageProjection> {
    SortBy(NameOfProjection, StringLeq, ProjectAll(packages))
  }

  function FromRawMetadata(m: Metadata): Result<Projection, ProjectionError> {
    match ProjectNodes(Identities(m.packages), m.nodes)
    case Failure(e) => Failure(e)
    case Success(g) => Success(Projection(SortedPackages(m.packages), g))
  }

  /** The stored packages are the projections of all packages, sorted by name, equal
      names in their order. */
  lemma StoredPackages(packages: seq<Package>)
    ensures var stored := SortedPackages(packages);
            && multiset(stored) == multiset(ProjectAll(packages)) && |stored| == |packages|
            && (forall i, j :: 0 <= i < j < |stored| ==> StringLeq(stored[i].name, stored[j].name))
            && forall name :: WithKey(NameOfProjection, name, stored) == WithKey(NameOfProjection, name, ProjectAll(packages))
  {
    hide StringLeq, SortBy, ProjectAll;
    StringOrder();
    var all, stored := ProjectAll(packages), SortedPackages(packages);
    SortByFacts(NameOfProjection, StringLeq, all);
    PermutationElements(all, stored);
    forall name { SortByStable(NameOfProjection, StringLeq, all, name); }
    forall i, j | 0 <= i < j < |stored| ensures StringLeq(stored[i].name, stored[j].name) {
      assert StringLeq(NameOfProjection(stored[i]), NameOfProjection(stored[j]));
    }
    ProjectedCount(packages);
  }

  lemma ProjectedCount(packages: seq<Package>)
    ensures |ProjectAll(packages)| == |packages|
  {
  }

  // -------------------------------------------------------- what success means

  /** All ids the resolved graph mentions. */
  ghost predicate Resolved(nodes: seq<Node>, id: string) {
    exists n :: n in nodes && (id == n.id || id in n.deps)
  }

  ghost predicate Projectable(ids: map<string, string>, nodes: seq<Node>) {
    && (forall id :: Resolved(nodes, id) ==> id in ids)
    && (forall i, j :: 0 <= i < j < |nodes| ==> ids[nodes[i].id] != ids[nodes[j].id])
  }

  ghost function Images(ids: map<string, string>, deps: seq<string>): set<string>
    requires forall d :: d in deps ==> d in ids
  {
    set d | d in deps :: ids[d]
  }

  lemma {:induction false} ResolveMeaning(ids: map<string, string>, deps: seq<string>)
    ensures Resolve(ids, deps).Success? <==> forall d :: d in deps ==> d in ids
    ensures Resolve(ids, deps).Success? ==> Resolve(ids, deps).value == Images(ids, deps)
  {
    if deps != [] {
      ResolveMeaning(ids, deps[..|deps| - 1]);
      assert deps == deps[..|deps| - 1] + [deps[|deps| - 1]];
    }
  }

  /** A failure names the first id of the list that has no identity. */
  lemma {:induction false} ResolveFailsAt(ids: map<string, string>, deps: seq<string>)
    ensures Resolve(ids, deps).Failure? ==>
      exists i :: 0 <= i < |deps| && deps[i] !in ids && (forall j :: 0 <= j < i ==> deps[j] in ids)
                  && Resolve(ids, deps).error == UnresolvablePackageId(deps[i])
  {
    if deps != [] {
      var rest := deps[..|deps| - 1];
      ResolveFailsAt(ids, rest);
      ResolveMeaning(ids, rest);
      assert forall j :: 0 <= j < |rest| ==> rest[j] == deps[j] && rest[j] in rest;
    }
  }

  /** What is wrong with one node, after the nodes before it: its own id or one of its
      dependencies has no identity, or its identity is taken. */
  ghost predicate FaultAt(ids: map<string, string>, nodes: seq<Node>, i: nat, error: ProjectionError)
    requires i < |nodes|
  {
    var n := nodes[i];
    if n.id !in ids then error == UnresolvablePackageId(n.id)
    else if exists d :: d in n.deps && d !in ids then
      exists k :: 0 <= k < |n.deps| && n.deps[k] !in ids && (forall j :: 0 <= j < k ==> n.deps[j] in ids) && error == UnresolvablePackageId(n.deps[k])
    else
      (exists j :: 0 <= j < i && nodes[j].id in ids && ids[nodes[j].id] == ids[n.id]) && error == AmbiguousPackageIdentity(ids[n.id])
  }

  /** A failed projection blames the first node at which it cannot go on. */
  lemma {:induction false} ProjectionFailsAt(ids: map<string, string>, nodes: seq<Node>)
    ensures ProjectNodes(ids, nodes).Failure? ==>
      exists i :: 0 <= i < |nodes| && Projectable(ids, nodes[..i]) && FaultAt(ids, nodes, i, ProjectNodes(ids, nodes).error)
  {
    hide Projectable, FaultAt;
    if nodes != [] {
      var rest, n := nodes[..|nodes| - 1], |nodes| - 1;
      ProjectionFailsAt(ids, rest);
      ProjectionMeaning(ids, rest);
      if ProjectNodes(ids, rest).Failure? {
        var i :| 0 <= i < |rest| && Projectable(ids, rest[..i]) && FaultAt(ids, rest, i, ProjectNodes(ids, rest).error);
        assert rest[..i] == nodes[..i];
        FaultBefore(ids, nodes, i, ProjectNodes(ids, rest).error);
      } else if ProjectNodes(ids, nodes).Failure? {
        LastNodeFails(ids, nodes);
      }
    }
  }

  lemma FaultBefore(ids: map<string, string>, nodes: seq<Node>, i: nat, error: ProjectionError)
    requires i < |nodes| - 1 && FaultAt(ids, nodes[..|nodes| - 1], i, error)
    ensures FaultAt(ids, nodes, i, error)
  {
    var rest := nodes[..|nodes| - 1];
    assert rest[i] == nodes[i];
    if nodes[i].id in ids && !exists d :: d in nodes[i].deps && d !in ids {
      var j :| 0 <= j < i && rest[j].id in ids && ids[rest[j].id] == ids[rest[i].id];
      assert nodes[j] == rest[j];
    }
  }

  lemma LastNodeFails(ids: map<string, string>, nodes: seq<Node>)
    requires nodes != [] && ProjectNodes(ids, nodes[..|nodes| - 1]).Success? && ProjectNodes(ids, nodes).Failure?
    ensures FaultAt(ids, nodes, |nodes| - 1, ProjectNodes(ids, nodes).error)
  {
    var rest, last := nodes[..|nodes| - 1], nodes[|nodes| - 1];
    hide Projectable, Images;
    ProjectionMeaning(ids, rest);
    ResolveMeaning(ids, last.deps);
    ResolveFailsAt(ids, last.deps);
    hide Resolve;
    if last.id in ids && Resolve(ids, last.deps).Success? {
      var m :| m in rest && ids[m.id] == ids[last.id];
      var j :| 0 <= j < |rest| && rest[j] == m;
      assert nodes[j] == m;
      IdentityKnown(ids, rest, m);
    }
  }

  lemma IdentityKnown(ids: map<string, string>, nodes: seq<Node>, n: Node)
    requires ProjectNodes(ids, nodes).Success? && n in nodes
    ensures n.id in ids
  {
    ProjectionMeaning(ids, nodes);
    assert Resolved(nodes, n.id);
  }

  lemma ResolvedSnoc(rest: seq<Node>, last: Node, id: string)
    ensures Resolved(rest + [last], id) <==> Resolved(rest, id) || id == last.id || id in last.deps
  {
    assert last in rest + [last];
    assert forall n :: n in rest + [last] <==> n in rest || n == last;
  }

  lemma ProjectableSnoc(ids: map<string, string>, rest: seq<Node>, last: Node)
    ensures Projectable(ids, rest + [last]) <==>
      && Projectable(ids, rest)
      && last.id in ids && (forall d :: d in last.deps ==> d in ids)
      && forall n :: n in rest ==> ids[n.id] != ids[last.id]
  {
    forall id ensures Resolved(rest + [last], id) <==> Resolved(rest, id) || id == last.id || id in last.deps {
      ResolvedSnoc(rest, last, id);
    }
    assert forall i :: 0 <= i < |rest| ==> Resolved(rest, rest[i].id);
    hide Resolved;
    var nodes := rest + [last];
    if Projectable(ids, nodes) {
      forall n | n in rest ensures ids[n.id] != ids[last.id] {
        var i :| 0 <= i < |rest| && rest[i] == n;
        assert nodes[i] == n && nodes[|rest|] == last;
      }
      assert forall i :: 0 <= i < |rest| ==> nodes[i] == rest[i];
    }
  }

  /** The projection succeeds exactly when every id resolves and no two nodes
      share an identity; it then maps each node's identity to the identities of
      its dependencies. */
  lemma {:induction false} ProjectionMeaning(ids: map<string, string>, nodes: seq<Node>)
    ensures ProjectNodes(ids, nodes).Success? <==> Projectable(ids, nodes)
    ensures ProjectNodes(ids, nodes).Success? ==>
      && (forall k :: k in ProjectNodes(ids, nodes).value <==> exists n :: n in nodes && ids[n.id] == k)
      && (forall n :: n in nodes ==> ProjectNodes(ids, nodes).value[ids[n.id]] == Images(ids, n.deps))
  {
    if nodes != [] {
      hide Projectable;
      var rest, last := nodes[..|nodes| - 1], nodes[|nodes| - 1];
      ProjectionMeaning(ids, rest);
      ResolveMeaning(ids, last.deps);
      assert nodes == rest + [last];
      ProjectableSnoc(ids, rest, last);
    }
  }
}
