/** The resolved dependency graph of `cargo metadata`, as the boundary checks
    and the stored projection both read it. */
module CargoGraph {

  import opened Wrappers

  /** One build target; only its `kind` list is read. */
  datatype Target = Target(kind: seq<string>)

  datatype Package = Package(name: string, id: string, version: string, targets: seq<Target>, links: Option<string>)

  datatype Node = Node(id: string, deps: seq<string>)

  datatype Metadata = Metadata(packages: seq<Package>, workspaceMembers: seq<string>, nodes: seq<Node>)

  /** Each vertex with the vertices it points at. */
  type Graph = map<string, set<string>>

  /** `nodes.iter().map(..).collect()`: the last node with an id wins. */
  function Adjacency(nodes: seq<Node>): map<string, seq<string>> {
    if nodes == [] then map[]
    else
      var last := nodes[|nodes| - 1];
      Adjacency(nodes[..|nodes| - 1])[last.id := last.deps]
  }

  ghost predicate DistinctNodes(nodes: seq<Node>) {
    forall i, j :: 0 <= i < j < |nodes| ==> nodes[i].id != nodes[j].id
  }

  lemma {:induction false} AdjacencyKeys(nodes: seq<Node>)
    ensures forall a :: a in Adjacency(nodes) <==> exists n :: n in nodes && n.id == a
  {
    if nodes != [] {
      var rest, last := nodes[..|nodes| - 1], nodes[|nodes| - 1];
      AdjacencyKeys(rest);
      assert nodes == rest + [last];
    }
  }

  /** With distinct node ids, the adjacency map is the list of nodes. */
  lemma {:induction false} AdjacencyEdges(nodes: seq<Node>)
    requires DistinctNodes(nodes)
    ensures forall n :: n in nodes ==> n.id in Adjacency(nodes) && Adjacency(nodes)[n.id] == n.deps
  {
    if nodes != [] {
      AdjacencyEdges(nodes[..|nodes| - 1]);
      assert nodes == nodes[..|nodes| - 1] + [nodes[|nodes| - 1]];
    }
  }

  function Edges(adjacency: map<string, seq<string>>): Graph {
    map a | a in adjacency :: set b | b in adjacency[a]
  }

  /** The graph a list of resolve nodes describes. */
  function NodeGraph(nodes: seq<Node>): Graph { Edges(Adjacency(nodes)) }

  /** Node `i` is the last one with its id. */
  ghost predicate LastNode(nodes: seq<Node>, i: nat) {
    i < |nodes| && forall j :: i < j < |nodes| ==> nodes[j].id != nodes[i].id
  }

  lemma {:induction false} LastNodeWins(nodes: seq<Node>, i: nat)
    requires LastNode(nodes, i)
    ensures nodes[i].id in Adjacency(nodes) && Adjacency(nodes)[nodes[i].id] == nodes[i].deps
  {
    if i < |nodes| - 1 {
      var rest := nodes[..|nodes| - 1];
      assert forall j :: 0 <= j < |rest| ==> rest[j] == nodes[j];
      LastNodeWins(rest, i);
    }
  }

  lemma {:induction false} HasLastNode(nodes: seq<Node>, a: string) returns (i: nat)
    requires exists n :: n in nodes && n.id == a
    ensures LastNode(nodes, i) && nodes[i].id == a
  {
    var last := nodes[|nodes| - 1];
    if last.id == a {
      i := |nodes| - 1;
    } else {
      var rest := nodes[..|nodes| - 1];
      assert nodes == rest + [last];
      i := HasLastNode(rest, a);
    }
  }

  /** An edge leads from `a` to `b` exactly when the last node with id `a` lists `b`
      among its dependencies. */
  lemma EdgesExactly(nodes: seq<Node>, a: string, b: string)
    ensures Edge(NodeGraph(nodes), a, b) <==> exists i: nat :: LastNode(nodes, i) && nodes[i].id == a && b in nodes[i].deps
  {
    hide Adjacency;
    AdjacencyKeys(nodes);
    if a in Adjacency(nodes) {
      var k := HasLastNode(nodes, a);
      LastNodeWins(nodes, k);
    }
    if i: nat :| LastNode(nodes, i) && nodes[i].id == a && b in nodes[i].deps {
      LastNodeWins(nodes, i);
    }
  }

  // --------------------------------------------------------------------- paths

  ghost predicate Edge(g: Graph, a: string, b: string) { a in g && b in g[a] }

  ghost predicate IsPath(g: Graph, p: seq<string>) {
    |p| > 0 && forall i :: 0 <= i < |p| - 1 ==> Edge(g, p[i], p[i + 1])
  }

  ghost predicate PathBetween(g: Graph, p: seq<string>, a: string, b: string) {
    IsPath(g, p) && p[0] == a && p[|p| - 1] == b
  }

  /** Some path of any length, including none, leads from `a` to `b`. */
  ghost predicate Reaches(g: Graph, a: string, b: string) { exists p :: PathBetween(g, p, a, b) }

  lemma ReachesSelf(g: Graph, a: string)
    ensures Reaches(g, a, a)
  {
    assert PathBetween(g, [a], a, a);
  }

  lemma ReachesStep(g: Graph, a: string, b: string, c: string)
    requires Reaches(g, a, b) && Edge(g, b, c)
    ensures Reaches(g, a, c)
  {
    var p :| PathBetween(g, p, a, b);
    assert PathBetween(g, p + [c], a, c);
  }

  /** A set closed under edges that holds the first node of a path holds them all. */
  lemma {:induction false} ClosedHoldsPath(g: Graph, s: set<string>, p: seq<string>)
    requires IsPath(g, p) && p[0] in s
    requires forall x, y :: x in s && Edge(g, x, y) ==> y in s
    ensures p[|p| - 1] in s
  {
    if |p| > 1 {
      assert Edge(g, p[0], p[1]);
      var q := p[1..];
      forall i | 0 <= i < |q| - 1 ensures Edge(g, q[i], q[i + 1]) {
        assert Edge(g, p[i + 1], p[i + 1 + 1]);
      }
      ClosedHoldsPath(g, s, q);
    }
  }

  lemma ClosedHoldsReachable(g: Graph, s: set<string>, a: string, b: string)
    requires a in s && Reaches(g, a, b)
    requires forall x, y :: x in s && Edge(g, x, y) ==> y in s
    ensures b in s
  {
    var p :| PathBetween(g, p, a, b);
    ClosedHoldsPath(g, s, p);
  }
}
