/** The build-script and procedural-macro rules, checked on live metadata and
    again on the projection stored in a bundle. */
module BoundaryRules {
  import opened Ordering
  import opened CargoGraph
  import opened Wrappers

  datatype BuildRsViolation = BuildRsViolation(crateName: string, links: Option<string>)

  datatype ProcMacroViolation = ProcMacroViolation(crateName: string)

  /** One package of the stored projection. */
  datatype PackageProjection = PackageProjection(name: string, targets: seq<Target>, links: Option<string>)

  predicate OptionLeq(a: Option<string>, b: Option<string>) {
    a.None? || (b.Some? && StringLeq(a.value, b.value))
  }

  predicate BuildRsLeq(a: BuildRsViolation, b: BuildRsViolation) {
    PairLeq(StringLeq, OptionLeq, (a.crateName, a.links), (b.crateName, b.links))
  }

  predicate ProcMacroLeq(a: ProcMacroViolation, b: ProcMacroViolation) { StringLeq(a.crateName, b.crateName) }

  lemma RuleOrders()
    ensures TotalOrder(BuildRsLeq) && TotalOrder(ProcMacroLeq)
  {
    StringOrder();
    hide StringLeq;
  }

  predicate HasKind(targets: seq<Target>, kind: string) { exists t :: t in targets && kind in t.kind }

  function Project(p: Package): PackageProjection { PackageProjection(p.name, p.targets, p.links) }

  function ProjectAll(packages: seq<Package>): seq<PackageProjection> { MapSeq(Project, packages) }

  /** The walk all four checks share: in-scope packages with a hit, reported. */
  function Hits<P(!new), V(!new)>(inScope: seq<string>, packages: seq<P>, name: P -> string, hit: P -> bool, report: P -> V): (r: seq<V>)
    ensures forall v :: v in r <==> exists p :: p in packages && name(p) in inScope && hit(p) && v == report(p)
  {
    if packages == [] then []
    else
      var p, rest := packages[0], Hits(inScope, packages[1..], name, hit, report);
      assert forall q :: q in packages <==> q == p || q in packages[1..];
      if name(p) in inScope && hit(p) then [report(p)] + rest else rest
  }

  const CUSTOM_BUILD := "custom-build"
  const PROC_MACRO := "proc-macro"

  // ----------------------------------------------------------- on live metadata

  function FindBuildRsViolations(inScope: seq<string>, packages: seq<Package>): seq<BuildRsViolation> {
    SortDedup(BuildRsLeq, Hits(inScope, packages, (p: Package) => p.name, (p: Package) => HasKind(p.targets, CUSTOM_BUILD),
                               (p: Package) => BuildRsViolation(p.name, p.links)))
  }

  function FindProcMacroViolations(inScope: seq<string>, packages: seq<Package>): seq<ProcMacroViolation> {
    SortDedup(ProcMacroLeq, Hits(inScope, packages, (p: Package) => p.name, (p: Package) => HasKind(p.targets, PROC_MACRO),
                                 (p: Package) => ProcMacroViolation(p.name)))
  }

  // -------------------------------------------------------- on the projection

  function CheckBuildRsInProjection(inScope: seq<string>, packages: seq<PackageProjection>): seq<BuildRsViolation> {
    SortDedup(BuildRsLeq, Hits(inScope, packages, (p: PackageProjection) => p.name,
                               (p: PackageProjection) => HasKind(p.targets, CUSTOM_BUILD),
                               (p: PackageProjection) => BuildRsViolation(p.name, p.links)))
  }

  function CheckProcMacrosInProjection(inScope: seq<string>, packages: seq<PackageProjection>): seq<ProcMacroViolation> {
    SortDedup(ProcMacroLeq, Hits(inScope, packages, (p: PackageProjection) => p.name,
                                 (p: PackageProjection) => HasKind(p.targets, PROC_MACRO),
                                 (p: PackageProjection) => ProcMacroViolation(p.name)))
  }

  /** What each check finds. */
  lemma LiveHits(inScope: seq<string>, packages: seq<Package>)
    ensures StrictlySorted(BuildRsLeq, FindBuildRsViolations(inScope, packages))
    ensures forall v :: v in FindBuildRsViolations(inScope, packages) <==>
      exists p :: p in packages && p.name in inScope && HasKind(p.targets, CUSTOM_BUILD) && v == BuildRsViolation(p.name, p.links)
    ensures StrictlySorted(ProcMacroLeq, FindProcMacroViolations(inScope, packages))
    ensures forall v :: v in FindProcMacroViolations(inScope, packages) <==>
      exists p :: p in packages && p.name in inScope && HasKind(p.targets, PROC_MACRO) && v == ProcMacroViolation(p.name)
  {
    hide BuildRsLeq, ProcMacroLeq, HasKind;
    RuleOrders();
    SortDedupFacts(BuildRsLeq, Hits(inScope, packages, (p: Package) => p.name, (p: Package) => HasKind(p.targets, CUSTOM_BUILD),
                                    (p: Package) => BuildRsViolation(p.name, p.links)));
    SortDedupFacts(ProcMacroLeq, Hits(inScope, packages, (p: Package) => p.name, (p: Package) => HasKind(p.targets, PROC_MACRO),
                                      (p: Package) => ProcMacroViolation(p.name)));
  }

  lemma StoredHits(inScope: seq<string>, packages: seq<PackageProjection>)
    ensures StrictlySorted(BuildRsLeq, CheckBuildRsInProjection(inScope, packages))
    ensures forall v :: v in CheckBuildRsInProjection(inScope, packages) <==>
      exists p :: p in packages && p.name in inScope && HasKind(p.targets, CUSTOM_BUILD) && v == BuildRsViolation(p.name, p.links)
    ensures StrictlySorted(ProcMacroLeq, CheckProcMacrosInProjection(inScope, packages))
    ensures forall v :: v in CheckProcMacrosInProjection(inScope, packages) <==>
      exists p :: p in packages && p.name in inScope && HasKind(p.targets, PROC_MACRO) && v == ProcMacroViolation(p.name)
  {
    hide BuildRsLeq, ProcMacroLeq, HasKind;
    RuleOrders();
    SortDedupFacts(BuildRsLeq, Hits(inScope, packages, (p: PackageProjection) => p.name,
                                    (p: PackageProjection) => HasKind(p.targets, CUSTOM_BUILD),
                                    (p: PackageProjection) => BuildRsViolation(p.name, p.links)));
    SortDedupFacts(ProcMacroLeq, Hits(inScope, packages, (p: PackageProjection) => p.name,
                                      (p: PackageProjection) => HasKind(p.targets, PROC_MACRO),
                                      (p: PackageProjection) => ProcMacroViolation(p.name)));
  }

  // ------------------------------------------------------------------ agreement

  /** Two lists with the same members: every package of one is the projection of
      a package of the other. */
  ghost predicate SamePackages(packages: seq<Package>, stored: seq<PackageProjection>) {
    && (forall p :: p in packages ==> Project(p) in stored)
    && (forall q :: q in stored ==> exists p :: p in packages && q == Project(p))
  }

  /** The recheck at verify time finds exactly what the check at generate time
      found, although the stored packages are in another order. */
  lemma RecheckAgrees(inScope: seq<string>, packages: seq<Package>, stored: seq<PackageProjection>)
    requires SamePackages(packages, stored)
    ensures CheckBuildRsInProjection(inScope, stored) == FindBuildRsViolations(inScope, packages)
    ensures CheckProcMacrosInProjection(inScope, stored) == FindProcMacroViolations(inScope, packages)
  {
    hide BuildRsLeq, ProcMacroLeq, HasKind, FindBuildRsViolations, FindProcMacroViolations, CheckBuildRsInProjection,
      CheckProcMacrosInProjection;
    RuleOrders();
    LiveHits(inScope, packages);
    StoredHits(inScope, stored);
    StrictlySortedUnique(BuildRsLeq, CheckBuildRsInProjection(inScope, stored), FindBuildRsViolations(inScope, packages));
    StrictlySortedUnique(ProcMacroLeq, CheckProcMacrosInProjection(inScope, stored), FindProcMacroViolations(inScope, packages));
  }

  /** Some target of the package lists the kind. */
  ghost predicate BuiltAs(p: Package, kind: string) {
    exists i, k :: 0 <= i < |p.targets| && 0 <= k < |p.targets[i].kind| && p.targets[i].kind[k] == kind
  }

  lemma KindsExactly(p: Package)
    ensures HasKind(p.targets, CUSTOM_BUILD) <==> BuiltAs(p, "custom-build")
    ensures HasKind(p.targets, PROC_MACRO) <==> BuiltAs(p, "proc-macro")
  {
    KindExactly(p, "custom-build");
    KindExactly(p, "proc-macro");
  }

  lemma KindExactly(p: Package, kind: string)
    ensures HasKind(p.targets, kind) <==> BuiltAs(p, kind)
  {
    if t :| t in p.targets && kind in t.kind {
      var i :| 0 <= i < |p.targets| && p.targets[i] == t;
      var k :| 0 <= k < |t.kind| && t.kind[k] == kind;
      assert p.targets[i].kind[k] == kind;
    }
    if i, k :| 0 <= i < |p.targets| && 0 <= k < |p.targets[i].kind| && p.targets[i].kind[k] == kind {
      assert p.targets[i] in p.targets && kind in p.targets[i].kind;
    }
  }

  /** By crate name, then by the `links` key, where a missing one comes first. */
  lemma BuildRsOrderExactly(a: BuildRsViolation, b: BuildRsViolation)
    ensures BuildRsLeq(a, b) <==>
      if a.crateName != b.crateName then StringLeq(a.crateName, b.crateName)
      else a.links.None? || (b.links.Some? && StringLeq(a.links.value, b.links.value))
  {
  }

  /** By crate name alone. */
  lemma ProcMacroOrderExactly(a: ProcMacroViolation, b: ProcMacroViolation)
    ensures ProcMacroLeq(a, b) <==> StringLeq(a.crateName, b.crateName)
  {
  }

  /** The report is sorted, without repeats, and names exactly the in-scope
      packages with a build script. */
  lemma BuildRsExact(inScope: seq<string>, packages: seq<Package>)
    ensures StrictlySorted(BuildRsLeq, FindBuildRsViolations(inScope, packages))
    ensures forall v :: v in FindBuildRsViolations(inScope, packages) <==>
      exists p :: p in packages && p.name in inScope && BuiltAs(p, "custom-build") && v == BuildRsViolation(p.name, p.links)
  {
    hide BuildRsLeq, HasKind, BuiltAs, FindBuildRsViolations, FindProcMacroViolations, CUSTOM_BUILD;
    LiveHits(inScope, packages);
    forall p { KindsExactly(p); }
  }

  /** The same for procedural macros. */
  lemma ProcMacrosExact(inScope: seq<string>, packages: seq<Package>)
    ensures StrictlySorted(ProcMacroLeq, FindProcMacroViolations(inScope, packages))
    ensures forall v :: v in FindProcMacroViolations(inScope, packages) <==>
      exists p :: p in packages && p.name in inScope && BuiltAs(p, "proc-macro") && v == ProcMacroViolation(p.name)
  {
    hide ProcMacroLeq, HasKind, BuiltAs, FindBuildRsViolations, FindProcMacroViolations, PROC_MACRO;
    LiveHits(inScope, packages);
    forall p { KindsExactly(p); }
  }
}
