/** The workspace boundary rules of `boundary_check.rs`. */
module BoundaryCheck {
  import opened Ordering
  import opened CargoGraph
  import opened Wrappers

  datatype Violation = Violation(rule: string, crateName: string, offendingDep: string)

  datatype BoundaryError = UnknownInScopeCrate(name: string)

  const RULE: string := "no_out_of_scope_deps"
  const UNKNOWN: string := "<unknown>"

  /** `(rule, crate_name, offending_dep)`, compared in that order. */
  predicate ViolationLeq(a: Violation, b: Violation) {
    if a.rule == b.rule then StringPairLeq((a.crateName, a.offendingDep), (b.crateName, b.offendingDep))
    else StringLeq(a.rule, b.rule)
  }

  lemma ViolationOrder()
    ensures TotalOrder(ViolationLeq)
  {
    StringOrder();
    StringPairOrder();
    hide StringLeq, StringPairLeq;
    forall a: Violation, b: Violation
      ensures ViolationLeq(a, b) || ViolationLeq(b, a)
      ensures ViolationLeq(a, b) && ViolationLeq(b, a) ==> a == b
    {
      var x, y := (a.crateName, a.offendingDep), (b.crateName, b.offendingDep);
      assert StringPairLeq(x, y) || StringPairLeq(y, x);
      assert StringPairLeq(x, y) && StringPairLeq(y, x) ==> x == y;
    }
    forall a: Violation, b: Violation, c: Violation | ViolationLeq(a, b) && ViolationLeq(b, c)
      ensures ViolationLeq(a, c)
    {
      if a.rule == b.rule && b.rule == c.rule {
        assert StringPairLeq((a.crateName, a.offendingDep), (c.crateName, c.offendingDep));
      }
    }
  }

  /** The report order: by rule, then by crate, then by dependency, each as text. */
  lemma ViolationOrderExactly(a: Violation, b: Violation)
    ensures ViolationLeq(a, b) <==>
      if a.rule != b.rule then StringLeq(a.rule, b.rule)
      else if a.crateName != b.crateName then StringLeq(a.crateName, b.crateName)
      else StringLeq(a.offendingDep, b.offendingDep)
  {
  }

  // ------------------------------------------------------------------ look-ups

  /** `id_to_name`: the last package with an id wins. */
  function IdToName(packages: seq<Package>): map<string, string> {
    if packages == [] then map[]
    else
      var last := packages[|packages| - 1];
      IdToName(packages[..|packages| - 1])[last.id := last.name]
  }

  /** `name_to_id` over the workspace members only. */
  function NameToId(packages: seq<Package>, members: seq<string>): map<string, string> {
    if packages == [] then map[]
    else
      var last, rest := packages[|packages| - 1], NameToId(packages[..|packages| - 1], members);
      if last.id in members then rest[last.name := last.id] else rest
  }

  function NameOf(m: Metadata, id: string): string {
    var names := IdToName(m.packages);
    if id in names then names[id] else UNKNOWN
  }

  // -------------------------------------------------------------- specification

  /** `d` is an out-of-scope workspace member that the crate at `start` depends
      on, directly or through any other crates. */
  ghost predicate Offends(m: Metadata, inScope: seq<string>, start: string, d: string) {
    && d != start
    && Reaches(NodeGraph(m.nodes), start, d)
    && d in m.workspaceMembers
    && NameOf(m, d) !in inScope
  }

  ghost predicate Reported(m: Metadata, inScope: seq<string>, crate: string, v: Violation) {
    && crate in inScope
    && crate in NameToId(m.packages, m.workspaceMembers)
    && exists d :: Offends(m, inScope, NameToId(m.packages, m.workspaceMembers)[crate], d)
                   && v == Violation(RULE, crate, NameOf(m, d))
  }

  /** The list holds every offending pair once, in order, and nothing else. */
  ghost predicate Exact(m: Metadata, inScope: seq<string>, violations: seq<Violation>) {
    && StrictlySorted(ViolationLeq, violations)
    && forall v :: v in violations <==> Reported(m, inScope, v.crateName, v)
  }

  ghost predicate Known(m: Metadata, crate: string) { crate in NameToId(m.packages, m.workspaceMembers) }

  // ------------------------------------------------------------------- the walk

  ghost function Universe(g: Graph, start: string): set<string> {
    {start} + set a, b | a in g && b in g[a] :: b
  }

  /** The members reached so far that break the rule. */
  ghost predicate Bad(m: Metadata, inScope: seq<string>, start: string, d: string) {
    d != start && d in m.workspaceMembers && NameOf(m, d) !in inScope
  }

  /** Breadth-first search from one in-scope crate. */
  method Walk(m: Metadata, inScope: seq<string>, crate: string, start: string, adj: map<string, seq<string>>) returns (found: seq<Violation>)
    requires adj == Adjacency(m.nodes)
    ensures forall v :: v in found <==>
      exists d :: Offends(m, inScope, start, d) && v == Violation(RULE, crate, NameOf(m, d))
  {
    hide Adjacency, NameOf;
    ghost var g := Edges(adj);
    var seen: set<string> := {start};
    var queue: seq<string> := [start];
    found := [];
    ReachesSelf(g, start);
    ghost var universe := Universe(g, start);
    while queue != []
      invariant start in seen && seen <= universe
      invariant forall x :: x in queue ==> x in seen
      invariant forall x :: x in seen ==> Reaches(g, start, x)
      invariant forall x, y :: x in seen && x !in queue && Edge(g, x, y) ==> y in seen
      invariant forall v :: v in found <==>
        exists d :: d in seen && Bad(m, inScope, start, d) && v == Violation(RULE, crate, NameOf(m, d))
      decreases universe - seen, |queue|
    {
      var node := queue[0];
      queue := queue[1..];
      if node in adj {
        var children := adj[node];
        ghost var before, rest := seen, queue;
        for j := 0 to |children|
          invariant node in seen && before <= seen <= universe
          invariant seen == before ==> queue == rest
          invariant forall x :: x in queue ==> x in seen
          invariant forall x :: x in seen ==> Reaches(g, start, x)
          invariant forall k :: 0 <= k < j ==> children[k] in seen
          invariant forall x, y :: x in seen && x !in queue && x != node && Edge(g, x, y) ==> y in seen
          invariant forall v :: v in found <==>
            exists d :: d in seen && Bad(m, inScope, start, d) && v == Violation(RULE, crate, NameOf(m, d))
        {
          var child := children[j];
          if child !in seen {
            assert Edge(g, node, child);
            ReachesStep(g, start, node, child);
            seen := seen + {child};
            if child in m.workspaceMembers {
              var childName := NameOf(m, child);
              if childName !in inScope {
                found := found + [Violation(RULE, crate, childName)];
              }
            }
            queue := queue + [child];
          }
        }
      }
    }
    forall d ensures d in seen && Bad(m, inScope, start, d) <==> Offends(m, inScope, start, d) {
      if Reaches(g, start, d) {
        ClosedHoldsReachable(g, seen, start, d);
      }
    }
  }

  /** Walk from every in-scope crate; fail on the first unknown name. */
  method FindOutOfScopeDeps(inScope: seq<string>, m: Metadata) returns (r: Result<seq<Violation>, BoundaryError>)
    ensures r.Success? <==> forall c :: c in inScope ==> Known(m, c)
    ensures r.Success? ==> Exact(m, inScope, r.value)
    ensures r.Failure? ==>
      exists i :: 0 <= i < |inScope| && r.error == UnknownInScopeCrate(inScope[i]) && !Known(m, inScope[i])
                  && forall j :: 0 <= j < i ==> Known(m, inScope[j])
  {
    var nameToId := NameToId(m.packages, m.workspaceMembers);
    var adj := Adjacency(m.nodes);
    var violations: seq<Violation> := [];
    for i := 0 to |inScope|
      invariant forall j :: 0 <= j < i ==> Known(m, inScope[j])
      invariant forall v :: v in violations <==> v.crateName in inScope[..i] && Reported(m, inScope, v.crateName, v)
    {
      var crate := inScope[i];
      if crate !in nameToId {
        assert crate in inScope && !Known(m, crate);
        return Failure(UnknownInScopeCrate(crate));
      }
      var found := Walk(m, inScope, crate, nameToId[crate], adj);
      assert inScope[..i + 1] == inScope[..i] + [crate];
      violations := violations + found;
    }
    assert inScope[..|inScope|] == inScope;
    ViolationOrder();
    SortDedupFacts(ViolationLeq, violations);
    r := Success(SortDedup(ViolationLeq, violations));
  }

  // ------------------------------------------------- what the report means

  /** Package ids are unique, and so are member names; every member has a
      package. */
  ghost predicate WellFormed(m: Metadata) {
    && (forall i, j :: 0 <= i < j < |m.packages| ==> m.packages[i].id != m.packages[j].id)
    && (forall id :: id in m.workspaceMembers ==> exists p :: p in m.packages && p.id == id)
    && (forall p, q | p in m.packages && q in m.packages && p.id in m.workspaceMembers && q.id in m.workspaceMembers ::
          p.name == q.name ==> p.id == q.id)
  }

  ghost predicate HasMember(packages: seq<Package>, members: seq<string>, id: string, name: string) {
    id in members && exists p :: p in packages && p.id == id && p.name == name
  }

  /** `id` is the workspace member called `name`. */
  ghost predicate Member(m: Metadata, id: string, name: string) {
    HasMember(m.packages, m.workspaceMembers, id, name)
  }

  lemma {:induction false} NameToIdMembers(packages: seq<Package>, members: seq<string>)
    ensures forall id, name :: HasMember(packages, members, id, name) ==> name in NameToId(packages, members)
    ensures forall name :: name in NameToId(packages, members) ==>
      HasMember(packages, members, NameToId(packages, members)[name], name)
  {
    if packages != [] {
      var rest, last := packages[..|packages| - 1], packages[|packages| - 1];
      NameToIdMembers(rest, members);
      assert packages == rest + [last];
      forall id, name
        ensures HasMember(packages, members, id, name) <==>
          HasMember(rest, members, id, name) || (last.id in members && id == last.id && name == last.name)
      {
        assert last in packages;
      }
    }
  }

  /** A name is rejected exactly when no workspace member carries it. */
  lemma KnownIsMember(m: Metadata, crate: string)
    ensures Known(m, crate) <==> exists id :: Member(m, id, crate)
    ensures Known(m, crate) ==> Member(m, NameToId(m.packages, m.workspaceMembers)[crate], crate)
  {
    NameToIdMembers(m.packages, m.workspaceMembers);
    hide NameToId, HasMember;
    if Known(m, crate) {
      assert Member(m, NameToId(m.packages, m.workspaceMembers)[crate], crate);
    }
    if exists id :: Member(m, id, crate) {
      var id :| Member(m, id, crate);
      assert HasMember(m.packages, m.workspaceMembers, id, crate);
    }
  }

  lemma {:induction false} IdToNameEntries(packages: seq<Package>)
    requires forall i, j :: 0 <= i < j < |packages| ==> packages[i].id != packages[j].id
    ensures forall p :: p in packages ==> p.id in IdToName(packages) && IdToName(packages)[p.id] == p.name
  {
    if packages != [] {
      IdToNameEntries(packages[..|packages| - 1]);
      assert packages == packages[..|packages| - 1] + [packages[|packages| - 1]];
    }
  }

  /** Of several packages that claim an id, or a member's name, the last one counts. */
  lemma {:induction false} LastClaimWins(packages: seq<Package>, members: seq<string>, i: nat)
    requires i < |packages|
    ensures (forall j :: i < j < |packages| ==> packages[j].id != packages[i].id) ==>
      packages[i].id in IdToName(packages) && IdToName(packages)[packages[i].id] == packages[i].name
    ensures packages[i].id in members && (forall j :: i < j < |packages| && packages[j].id in members ==> packages[j].name != packages[i].name) ==>
      packages[i].name in NameToId(packages, members) && NameToId(packages, members)[packages[i].name] == packages[i].id
  {
    var rest := packages[..|packages| - 1];
    if i < |packages| - 1 {
      LastClaimWins(rest, members, i);
      assert forall j :: 0 <= j < |rest| ==> rest[j] == packages[j];
    }
  }

  /** A member without a package is reported as unknown, unless that very word is in
      scope. */
  lemma {:induction false} NamelessMember(packages: seq<Package>, id: string)
    requires forall p :: p in packages ==> p.id != id
    ensures id !in IdToName(packages)
  {
    if packages != [] {
      NamelessMember(packages[..|packages| - 1], id);
    }
  }

  lemma NamelessIsUnknown(m: Metadata, id: string)
    requires forall p :: p in m.packages ==> p.id != id
    ensures NameOf(m, id) == "<unknown>"
  {
    NamelessMember(m.packages, id);
  }

  lemma MemberName(m: Metadata, id: string, name: string)
    requires WellFormed(m) && Member(m, id, name)
    ensures NameOf(m, id) == name
  {
    IdToNameEntries(m.packages);
  }

  /** A dependency path, through external crates too, from the in-scope member
      called `crate` to the out-of-scope member called `dep`. */
  ghost predicate Crosses(m: Metadata, inScope: seq<string>, crate: string, dep: string) {
    && crate in inScope
    && dep !in inScope
    && exists s, d :: Member(m, s, crate) && Member(m, d, dep) && Reaches(NodeGraph(m.nodes), s, d)
  }

  lemma ReportedCrosses(m: Metadata, inScope: seq<string>, crate: string, dep: string)
    requires WellFormed(m)
    ensures Reported(m, inScope, crate, Violation(RULE, crate, dep)) ==> Crosses(m, inScope, crate, dep)
  {
    hide NodeGraph, NameToId, NameOf, RULE, Reaches;
    var v := Violation(RULE, crate, dep);
    if Reported(m, inScope, crate, v) {
      KnownIsMember(m, crate);
      var s := NameToId(m.packages, m.workspaceMembers)[crate];
      var d :| Offends(m, inScope, s, d) && v == Violation(RULE, crate, NameOf(m, d));
      var p :| p in m.packages && p.id == d;
      assert Member(m, d, p.name);
      MemberName(m, d, p.name);
    }
  }

  lemma CrossesReported(m: Metadata, inScope: seq<string>, crate: string, dep: string)
    requires WellFormed(m)
    ensures Crosses(m, inScope, crate, dep) ==> Reported(m, inScope, crate, Violation(RULE, crate, dep))
  {
    hide NodeGraph, NameToId, NameOf, RULE, Reaches;
    if Crosses(m, inScope, crate, dep) {
      var s, d :| Member(m, s, crate) && Member(m, d, dep) && Reaches(NodeGraph(m.nodes), s, d);
      KnownIsMember(m, crate);
      assert NameToId(m.packages, m.workspaceMembers)[crate] == s;
      MemberName(m, s, crate);
      MemberName(m, d, dep);
      assert Offends(m, inScope, s, d);
    }
  }

  /** On well-formed metadata the report is the sorted list of all pairs
      (in-scope crate, out-of-scope member) joined by a dependency path. */
  lemma ReportIsReachability(m: Metadata, inScope: seq<string>, violations: seq<Violation>)
    requires WellFormed(m) && Exact(m, inScope, violations)
    ensures forall v :: v in violations <==> v.rule == "no_out_of_scope_deps" && Crosses(m, inScope, v.crateName, v.offendingDep)
  {
    assert RULE == "no_out_of_scope_deps";
    hide Crosses, WellFormed, RULE, StrictlySorted;
    forall v: Violation
      ensures Reported(m, inScope, v.crateName, v) <==> v.rule == RULE && Crosses(m, inScope, v.crateName, v.offendingDep)
    {
      ReportedCrosses(m, inScope, v.crateName, v.offendingDep);
      CrossesReported(m, inScope, v.crateName, v.offendingDep);
      if v.rule == RULE {
        assert v == Violation(RULE, v.crateName, v.offendingDep);
      }
    }
  }

  /** The report depends on what is in scope and in the graph, not on the order
      or repetition in which the scope lists it. */
  lemma ReportIsUnique(m: Metadata, inScope: seq<string>, inScope': seq<string>, a: seq<Violation>, b: seq<Violation>)
    requires forall c :: c in inScope <==> c in inScope'
    requires Exact(m, inScope, a) && Exact(m, inScope', b)
    ensures a == b
  {
    ViolationOrder();
    hide NodeGraph, NameToId, NameOf, ViolationLeq;
    forall v: Violation
      ensures Reported(m, inScope, v.crateName, v) <==> Reported(m, inScope', v.crateName, v)
    {
      forall s, e ensures Offends(m, inScope, s, e) <==> Offends(m, inScope', s, e) {
      }
    }
    StrictlySortedUnique(ViolationLeq, a, b);
  }
}
