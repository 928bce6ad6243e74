/**
 The public package boundary (verify-boundaries.py): a worklist over Cargo's resolve graph that
 accepts a package exactly when everything reachable from it may be there.

 Cargo's JSON is modelled after parsing: `None` stands for a field that is absent, of the wrong
 type or, where the source asks for it, empty. Manifest paths are the resolved parent directories.
 */
module DependencyClosure {
  import opened Wrappers

  datatype Package = Package(
    id: Option<string>, name: Option<string>, license: Option<string>, source: Option<string>,
    manifestParent: Option<string>)

  datatype Node = Node(id: Option<string>, deps: Option<seq<Option<string>>>)

  datatype Boundary = Boundary(packageName: string, packageRoot: string, allowed: set<string>)

  /** Cargo metadata, indexed by id. */
  datatype Graph = Graph(packages: map<string, Package>, nodes: map<string, Node>, members: set<string>)

  datatype BoundaryError =
    | MissingId
    | DuplicateId
    | MissingName
    | NoSingleRoot
    | EscapedRoot
    | UnknownPackage
    | NoNode
    | BuslDependency
    | UnlicensedLocal
    | OutsideWorkspace
    | UnexpectedLocal
    | NonCanonicalRoot
    | MalformedDependencies
    | Incomplete

  const APACHE_LICENSE := "Apache-2.0"

  // ------------------------------------------------------------ what is accepted

  predicate Mentions(text: string, part: string) {
    exists i :: 0 <= i <= |text| && StartsAt(text, part, i)
  }

  predicate StartsAt(text: string, part: string, i: nat) {
    i + |part| <= |text| && text[i..i + |part|] == part
  }

  /** The text holds the part somewhere. */
  ghost predicate Contains(text: string, part: string) {
    exists before: string, after: string :: text == before + part + after
  }

  lemma MentionsIff(text: string, part: string)
    ensures Mentions(text, part) <==> Contains(text, part)
  {
    if i :| 0 <= i <= |text| && StartsAt(text, part, i) {
      assert text == text[..i] + part + text[i + |part|..];
    }
    if before: string, after: string :| text == before + part + after {
      assert StartsAt(text, part, |before|);
    }
  }

  function ExpectedRoots(boundaries: seq<Boundary>): map<string, string> {
    if boundaries == [] then map[]
    else
      var last := boundaries[|boundaries| - 1];
      ExpectedRoots(boundaries[..|boundaries| - 1])[last.packageName := last.packageRoot]
  }

  /** A name is expected exactly where a boundary has it, and in the root of the last such boundary. */
  lemma {:induction false} ExpectedRootsIff(boundaries: seq<Boundary>, name: string)
    ensures name in ExpectedRoots(boundaries) <==> exists i :: 0 <= i < |boundaries| && boundaries[i].packageName == name
    ensures forall i :: 0 <= i < |boundaries| && boundaries[i].packageName == name
                        && (forall j :: i < j < |boundaries| ==> boundaries[j].packageName != name) ==>
              ExpectedRoots(boundaries)[name] == boundaries[i].packageRoot
    decreases |boundaries|
  {
    if boundaries != [] {
      var n := |boundaries| - 1;
      var front := boundaries[..n];
      ExpectedRootsIff(front, name);
      assert forall i :: 0 <= i < n ==> front[i] == boundaries[i];
      assert boundaries[n].packageName != name ==>
        forall i :: 0 <= i < |boundaries| && boundaries[i].packageName == name ==> i < n;
    }
  }

  predicate Local(g: Graph, id: string) {
    id in g.packages && g.packages[id].source.None?
  }

  /** The conditions on a local package: licence, workspace, allowlist and canonical root. */
  predicate LocalAllowed(g: Graph, roots: map<string, string>, b: Boundary, id: string)
    requires id in g.packages && g.packages[id].name.Some?
  {
    var p := g.packages[id];
    && p.license == Some("Apache-2.0")
    && id in g.members
    && p.name.value in b.allowed
    && p.name.value in roots && p.manifestParent == Some(roots[p.name.value])
  }

  /** The conditions on any package in the closure. */
  ghost predicate Allowed(g: Graph, roots: map<string, string>, b: Boundary, id: string) {
    && id in g.packages && id in g.nodes
    && g.packages[id].name.Some?
    && (g.packages[id].license.Some? ==> !Contains(g.packages[id].license.value, "BUSL-1.1"))
    && (g.packages[id].source.None? ==> LocalAllowed(g, roots, b, id))
    && g.nodes[id].deps.Some?
    && None !in g.nodes[id].deps.value
  }

  predicate DependsOn(g: Graph, id: string, dependency: string) {
    id in g.nodes && g.nodes[id].deps.Some? && Some(dependency) in g.nodes[id].deps.value
  }

  predicate Path(g: Graph, path: seq<string>) {
    && path != []
    && forall i :: 0 <= i < |path| - 1 ==> DependsOn(g, path[i], path[i + 1])
  }

  /** Reachability along dependency edges, stated by paths and not by any search. */
  ghost predicate Reachable(g: Graph, root: string, id: string) {
    exists path :: Path(g, path) && path[0] == root && path[|path| - 1] == id
  }

  /** Everything reachable is allowed, and the local names among it are exactly the allowlist. */
  ghost predicate Closed(g: Graph, roots: map<string, string>, b: Boundary, root: string) {
    && (forall id :: Reachable(g, root, id) ==> Allowed(g, roots, b, id))
    && (forall name :: name in b.allowed <==>
          exists id :: Reachable(g, root, id) && Local(g, id) && g.packages[id].name == Some(name))
  }

  lemma RootReachable(g: Graph, root: string)
    ensures Reachable(g, root, root)
  {
    assert Path(g, [root]) && [root][0] == root && [root][|[root]| - 1] == root;
  }

  lemma StepReachable(g: Graph, root: string, id: string, dependency: string)
    requires Reachable(g, root, id) && DependsOn(g, id, dependency)
    ensures Reachable(g, root, dependency)
  {
    var path :| Path(g, path) && path[0] == root && path[|path| - 1] == id;
    var longer := path + [dependency];
    forall i | 0 <= i < |longer| - 1 ensures DependsOn(g, longer[i], longer[i + 1]) {
      if i < |path| - 1 {
        assert DependsOn(g, path[i], path[i + 1]);
      }
    }
    assert Path(g, longer) && longer[0] == root && longer[|longer| - 1] == dependency;
  }

  /** A set that holds the root and all its own dependencies holds everything reachable. */
  lemma ClosedSetHoldsPath(g: Graph, visited: set<string>, path: seq<string>, k: nat)
    requires forall id, d :: id in visited && DependsOn(g, id, d) ==> d in visited
    requires Path(g, path) && path[0] in visited && k < |path|
    ensures path[k] in visited
  {
    if k > 0 {
      ClosedSetHoldsPath(g, visited, path, k - 1);
      assert DependsOn(g, path[k - 1], path[k]);
    }
  }

  lemma ClosedSetHoldsReachable(g: Graph, visited: set<string>, root: string)
    requires forall id, d :: id in visited && DependsOn(g, id, d) ==> d in visited
    requires root in visited
    ensures forall id :: Reachable(g, root, id) ==> id in visited
  {
    forall id | Reachable(g, root, id) ensures id in visited {
      var path :| Path(g, path) && path[0] == root && path[|path| - 1] == id;
      ClosedSetHoldsPath(g, visited, path, |path| - 1);
    }
  }

  // ------------------------------------------------------------ the worklist

  /** The checks on one package of the closure; its dependencies and, if it is local, its name. */
  method Inspect(g: Graph, roots: map<string, string>, b: Boundary, id: string)
    returns (r: Result<(seq<string>, Option<string>), BoundaryError>)
    ensures r.Success? <==> Allowed(g, roots, b, id)
    ensures r == Failure(UnknownPackage) <==> id !in g.packages
    ensures r == Failure(NoNode) <==> id in g.packages && id !in g.nodes
    ensures r == Failure(MissingName) <==> id in g.packages && id in g.nodes && g.packages[id].name.None?
    ensures r == Failure(BuslDependency) <==>
      && id in g.packages && id in g.nodes && g.packages[id].name.Some?
      && g.packages[id].license.Some? && Contains(g.packages[id].license.value, "BUSL-1.1")
    ensures r.Success? ==>
      && r.value.0 == seq(|g.nodes[id].deps.value|, i requires 0 <= i < |g.nodes[id].deps.value|
                            => Value(g.nodes[id].deps.value[i]))
      && r.value.1 == (if Local(g, id) then g.packages[id].name else None)
  {
    if id !in g.packages {
      return Failure(UnknownPackage);
    }
    var package := g.packages[id];
    if id !in g.nodes {
      return Failure(NoNode);
    }
    var node := g.nodes[id];
    if package.name.None? {
      return Failure(MissingName);
    }
    var name := package.name.value;
    if package.license.Some? {
      MentionsIff(package.license.value, "BUSL-1.1");
    }
    if package.license.Some? && Mentions(package.license.value, "BUSL-1.1") {
      return Failure(BuslDependency);
    }
    var local: Option<string> := None;
    if package.source.None? {
      if package.license != Some(APACHE_LICENSE) {
        return Failure(UnlicensedLocal);
      }
      if id !in g.members {
        return Failure(OutsideWorkspace);
      }
      if name !in b.allowed {
        return Failure(UnexpectedLocal);
      }
      if name !in roots || package.manifestParent != Some(roots[name]) {
        return Failure(NonCanonicalRoot);
      }
      local := Some(name);
    }
    if node.deps.None? {
      return Failure(MalformedDependencies);
    }
    var dependencies: seq<string> := [];
    for i := 0 to |node.deps.value|
      invariant None !in node.deps.value[..i]
      invariant dependencies == seq(i, j requires 0 <= j < i => Value(node.deps.value[j]))
    {
      if node.deps.value[i].None? {
        return Failure(MalformedDependencies);
      }
      dependencies := dependencies + [node.deps.value[i].value];
    }
    assert node.deps.value[..|node.deps.value|] == node.deps.value;
    return Success((dependencies, local));
  }

  function Value(dependency: Option<string>): string {
    if dependency.Some? then dependency.value else ""
  }

  /** What the worklist knows of the packages it has visited. */
  ghost predicate Progress(
    g: Graph, roots: map<string, string>, b: Boundary, root: string,
    pending: seq<string>, visited: set<string>, localNames: set<string>)
  {
    && (root in pending || root in visited)
    && (forall id :: id in pending || id in visited ==> Reachable(g, root, id))
    && (forall id :: id in visited ==> Allowed(g, roots, b, id))
    && (forall id, d :: id in visited && DependsOn(g, id, d) ==> d in visited || d in pending)
    && (forall id :: id in visited && Local(g, id) ==> g.packages[id].name.value in localNames)
    && (forall name :: name in localNames ==>
          exists id :: id in visited && Local(g, id) && g.packages[id].name == Some(name))
  }

  /** The dependencies of an allowed package, as pushed, are exactly its edges. */
  lemma PushedAreEdges(g: Graph, id: string, pushed: seq<string>)
    requires id in g.nodes && g.nodes[id].deps.Some? && None !in g.nodes[id].deps.value
    requires pushed == seq(|g.nodes[id].deps.value|, i requires 0 <= i < |g.nodes[id].deps.value|
                             => Value(g.nodes[id].deps.value[i]))
    ensures forall d :: d in pushed <==> DependsOn(g, id, d)
  {
    var deps := g.nodes[id].deps.value;
    forall d ensures d in pushed <==> DependsOn(g, id, d) {
      if d in pushed {
        var i :| 0 <= i < |deps| && pushed[i] == d;
        assert deps[i] in deps;
        assert deps[i] == Some(d);
      }
      if Some(d) in deps {
        var i :| 0 <= i < |deps| && deps[i] == Some(d);
        assert pushed[i] == d;
      }
    }
  }

  lemma VisitKeepsProgress(
    g: Graph, roots: map<string, string>, b: Boundary, root: string, id: string, pushed: seq<string>,
    rest: seq<string>, visited: set<string>, localNames: set<string>, more: set<string>)
    requires Progress(g, roots, b, root, rest + [id], visited, localNames)
    requires Allowed(g, roots, b, id)
    requires forall d :: d in pushed <==> DependsOn(g, id, d)
    requires more == localNames + (if Local(g, id) then {g.packages[id].name.value} else {})
    ensures Progress(g, roots, b, root, rest + pushed, visited + {id}, more)
  {
    AllowedFacts(g, roots, b, id);
    hide Reachable, Allowed, DependsOn, Local;
    assert id in rest + [id];
    forall d | d in pushed ensures Reachable(g, root, d) {
      StepReachable(g, root, id, d);
    }
    forall other | other in rest ensures Reachable(g, root, other) {
      assert other in rest + [id];
    }
    NamesAreVisited(g, id, visited, localNames, more);
    assert root in rest + [id] ==> root in rest || root == id;
  }

  lemma NamesAreVisited(g: Graph, id: string, visited: set<string>, localNames: set<string>, more: set<string>)
    requires Local(g, id) ==> g.packages[id].name.Some?
    requires more == localNames + (if Local(g, id) then {g.packages[id].name.value} else {})
    requires forall name :: name in localNames ==>
      exists v :: v in visited && Local(g, v) && g.packages[v].name == Some(name)
    ensures forall name :: name in more ==>
      exists v :: v in visited + {id} && Local(g, v) && g.packages[v].name == Some(name)
  {
    forall name | name in more
      ensures exists v :: v in visited + {id} && Local(g, v) && g.packages[v].name == Some(name)
    {
      if name in localNames {
        var v :| v in visited && Local(g, v) && g.packages[v].name == Some(name);
        assert v in visited + {id};
      } else {
        assert id in visited + {id};
      }
    }
  }

  lemma SkipKeepsProgress(
    g: Graph, roots: map<string, string>, b: Boundary, root: string, id: string,
    rest: seq<string>, visited: set<string>, localNames: set<string>)
    requires Progress(g, roots, b, root, rest + [id], visited, localNames) && id in visited
    ensures Progress(g, roots, b, root, rest, visited, localNames)
  {
    forall other | other in rest ensures Reachable(g, root, other) {
      assert other in rest + [id];
    }
    forall v, d | v in visited && DependsOn(g, v, d) ensures d in visited || d in rest {
      assert d in visited || d in rest + [id];
    }
    assert root in rest + [id] ==> root in rest || root == id;
  }

  /** The worklist is empty: what was visited is what is reachable. */
  lemma ProgressDone(
    g: Graph, roots: map<string, string>, b: Boundary, root: string, visited: set<string>, localNames: set<string>)
    requires Progress(g, roots, b, root, [], visited, localNames)
    ensures Closed(g, roots, b, root) <==> localNames == b.allowed
    ensures forall name :: name in localNames <==>
              exists id :: Reachable(g, root, id) && Local(g, id) && g.packages[id].name == Some(name)
  {
    ClosedSetHoldsReachable(g, visited, root);
    forall name ensures name in localNames <==>
      exists id :: Reachable(g, root, id) && Local(g, id) && g.packages[id].name == Some(name)
    {
    }
  }

  lemma ProgressStart(g: Graph, roots: map<string, string>, b: Boundary, root: string)
    ensures Progress(g, roots, b, root, [root], {}, {})
  {
    RootReachable(g, root);
  }

  /** The closure of one root: it ends on every graph, cyclic ones included. */
  method ValidateClosure(g: Graph, roots: map<string, string>, b: Boundary, root: string)
    returns (r: Result<set<string>, BoundaryError>)
    ensures r.Success? <==> Closed(g, roots, b, root)
    ensures r.Success? ==> r.value == b.allowed
  {
    hide Progress, Closed, Allowed, Reachable, Local, DependsOn;
    var pending := [root];
    var visited: set<string> := {};
    var localNames: set<string> := {};
    ProgressStart(g, roots, b, root);
    while pending != []
      invariant visited <= g.packages.Keys
      invariant Progress(g, roots, b, root, pending, visited, localNames)
      decreases |g.packages.Keys - visited|, |pending|
    {
      var id, rest := pending[|pending| - 1], pending[..|pending| - 1];
      assert pending == rest + [id];
      if id in visited {
        SkipKeepsProgress(g, roots, b, root, id, rest, visited, localNames);
        pending := rest;
        continue;
      }
      var inspected := Inspect(g, roots, b, id);
      if inspected.Failure? {
        DisallowedIsOpen(g, roots, b, root, id, pending, visited, localNames);
        return Failure(inspected.error);
      }
      AllowedFacts(g, roots, b, id);
      PushedAreEdges(g, id, inspected.value.0);
      ghost var unvisited := g.packages.Keys - visited;
      var more := localNames + (if inspected.value.1.Some? then {inspected.value.1.value} else {});
      VisitKeepsProgress(g, roots, b, root, id, inspected.value.0, rest, visited, localNames, more);
      pending := rest + inspected.value.0;
      visited := visited + {id};
      localNames := more;
      assert g.packages.Keys - visited == unvisited - {id} && id in unvisited;
    }
    ProgressDone(g, roots, b, root, visited, localNames);
    if localNames != b.allowed {
      return Failure(Incomplete);
    }
    return Success(localNames);
  }

  lemma DisallowedIsOpen(
    g: Graph, roots: map<string, string>, b: Boundary, root: string, id: string,
    pending: seq<string>, visited: set<string>, localNames: set<string>)
    requires Progress(g, roots, b, root, pending, visited, localNames) && id in pending
    requires !Allowed(g, roots, b, id)
    ensures !Closed(g, roots, b, root)
  {
  }

  lemma AllowedFacts(g: Graph, roots: map<string, string>, b: Boundary, id: string)
    requires Allowed(g, roots, b, id)
    ensures id in g.packages && g.packages[id].name.Some?
    ensures id in g.nodes && g.nodes[id].deps.Some? && None !in g.nodes[id].deps.value
    ensures Local(g, id) <==> g.packages[id].source.None?
  {
  }

  // ------------------------------------------------------------ the whole check

  /** Every entry has an id and no id comes twice. */
  predicate Indexable(ids: seq<Option<string>>) {
    && None !in ids
    && forall i, j :: 0 <= i < j < |ids| ==> ids[i] != ids[j]
  }

  function PackageIds(packages: seq<Package>): seq<Option<string>> {
    seq(|packages|, i requires 0 <= i < |packages| => packages[i].id)
  }

  function NodeIds(nodes: seq<Node>): seq<Option<string>> {
    seq(|nodes|, i requires 0 <= i < |nodes| => nodes[i].id)
  }

  predicate PackagesIndexed(packages: seq<Package>, index: map<string, Package>) {
    && (forall i :: 0 <= i < |packages| && packages[i].id.Some? ==>
          packages[i].id.value in index && index[packages[i].id.value] == packages[i])
    && (forall id :: id in index ==> Some(id) in PackageIds(packages))
  }

  predicate NodesIndexed(nodes: seq<Node>, index: map<string, Node>) {
    && (forall i :: 0 <= i < |nodes| && nodes[i].id.Some? ==>
          nodes[i].id.value in index && index[nodes[i].id.value] == nodes[i])
    && (forall id :: id in index ==> Some(id) in NodeIds(nodes))
  }

  method IndexPackages(packages: seq<Package>) returns (r: Result<map<string, Package>, BoundaryError>)
    ensures r.Success? <==> Indexable(PackageIds(packages))
    ensures r.Success? ==> PackagesIndexed(packages, r.value)
  {
    var index: map<string, Package> := map[];
    for k := 0 to |packages|
      invariant Indexable(PackageIds(packages)[..k])
      invariant forall i :: 0 <= i < k ==>
        packages[i].id.Some? && packages[i].id.value in index && index[packages[i].id.value] == packages[i]
      invariant forall id :: id in index ==> Some(id) in PackageIds(packages)[..k]
    {
      ghost var ids := PackageIds(packages);
      assert ids[k] == packages[k].id && ids[..k + 1] == ids[..k] + [ids[k]];
      if packages[k].id.None? {
        return Failure(MissingId);
      }
      var id := packages[k].id.value;
      if id in index {
        assert exists i :: 0 <= i < k && ids[i] == Some(id);
        return Failure(DuplicateId);
      }
      index := index[id := packages[k]];
    }
    assert PackageIds(packages)[..|packages|] == PackageIds(packages);
    return Success(index);
  }

  method IndexNodes(nodes: seq<Node>) returns (r: Result<map<string, Node>, BoundaryError>)
    ensures r.Success? <==> Indexable(NodeIds(nodes))
    ensures r.Success? ==> NodesIndexed(nodes, r.value)
  {
    var index: map<string, Node> := map[];
    for k := 0 to |nodes|
      invariant Indexable(NodeIds(nodes)[..k])
      invariant forall i :: 0 <= i < k ==>
        nodes[i].id.Some? && nodes[i].id.value in index && index[nodes[i].id.value] == nodes[i]
      invariant forall id :: id in index ==> Some(id) in NodeIds(nodes)[..k]
    {
      ghost var ids := NodeIds(nodes);
      assert ids[k] == nodes[k].id && ids[..k + 1] == ids[..k] + [ids[k]];
      if nodes[k].id.None? {
        return Failure(MissingId);
      }
      var id := nodes[k].id.value;
      if id in index {
        assert exists i :: 0 <= i < k && ids[i] == Some(id);
        return Failure(DuplicateId);
      }
      index := index[id := nodes[k]];
    }
    assert NodeIds(nodes)[..|nodes|] == NodeIds(nodes);
    return Success(index);
  }

  /** A workspace package that bears the boundary's name. */
  predicate Candidate(p: Package, members: set<string>, b: Boundary) {
    p.name == Some(b.packageName) && p.id.Some? && p.id.value in members
  }

  /** The only candidate, in its expected place. */
  ghost predicate RootOf(packages: seq<Package>, members: set<string>, b: Boundary, k: nat) {
    && k < |packages|
    && Candidate(packages[k], members, b)
    && (forall i :: 0 <= i < |packages| && Candidate(packages[i], members, b) ==> i == k)
    && packages[k].manifestParent == Some(b.packageRoot)
  }

  method FindRoot(packages: seq<Package>, members: set<string>, b: Boundary)
    returns (r: Result<string, BoundaryError>, ghost k: nat)
    requires Indexable(PackageIds(packages))
    ensures r.Success? ==>
      && (forall p :: p in packages ==> p.name.Some?)
      && RootOf(packages, members, b, k) && packages[k].id == Some(r.value)
    ensures r.Failure? ==>
      || (exists p :: p in packages && p.name.None?)
      || (forall i :: 0 <= i < |packages| ==> !RootOf(packages, members, b, i))
  {
    k := 0;
    var candidates: seq<nat> := [];
    for i := 0 to |packages|
      invariant forall j :: 0 <= j < i ==> packages[j].name.Some?
      invariant forall c :: c in candidates <==> 0 <= c < i && Candidate(packages[c], members, b)
      invariant forall c :: c in candidates ==> c < |packages|
      invariant forall c, d :: 0 <= c < d < |candidates| ==> candidates[c] != candidates[d]
    {
      if packages[i].name.None? {
        return Failure(MissingName), 0;
      }
      assert PackageIds(packages)[i] != None;
      if packages[i].name.value == b.packageName && packages[i].id.value in members {
        candidates := candidates + [i];
      }
    }
    if |candidates| != 1 {
      if |candidates| > 1 {
        assert candidates[0] in candidates && candidates[1] in candidates;
      }
      return Failure(NoSingleRoot), 0;
    }
    assert candidates[0] in candidates;
    var root := packages[candidates[0]];
    k := candidates[0];
    forall i | 0 <= i < |packages| && Candidate(packages[i], members, b) ensures i == k {
      assert i in candidates;
    }
    if root.manifestParent != Some(b.packageRoot) {
      return Failure(EscapedRoot), k;
    }
    return Success(root.id.value), k;
  }

  /** A boundary holds: one root in its place, with everything reachable from it allowed. */
  ghost predicate BoundaryHolds(packages: seq<Package>, g: Graph, roots: map<string, string>, b: Boundary) {
    && (forall p :: p in packages ==> p.name.Some?)
    && exists k: nat :: RootOf(packages, g.members, b, k) && Closed(g, roots, b, packages[k].id.value)
  }

  method ValidateBoundary(packages: seq<Package>, g: Graph, roots: map<string, string>, b: Boundary)
    returns (r: Result<set<string>, BoundaryError>)
    requires Indexable(PackageIds(packages))
    ensures r.Success? <==> BoundaryHolds(packages, g, roots, b)
    ensures r.Success? ==> r.value == b.allowed
  {
    hide Closed;
    var root, k := FindRoot(packages, g.members, b);
    if root.Failure? {
      return Failure(root.error);
    }
    r := ValidateClosure(g, roots, b, root.value);
  }

  /**
   `validate_dependency_closures` accepts exactly the metadata whose packages and nodes are
   properly indexed and in which every boundary holds, and reports each boundary's allowlist.
   */
  method ValidateDependencyClosures(
    packages: seq<Package>, members: set<string>, nodes: seq<Node>, boundaries: seq<Boundary>)
    returns (r: Result<map<string, set<string>>, BoundaryError>, ghost g: Graph)
    ensures r.Success? ==> Indexable(PackageIds(packages)) && Indexable(NodeIds(nodes))
    ensures Indexable(PackageIds(packages)) && Indexable(NodeIds(nodes)) ==>
      && g.members == members && PackagesIndexed(packages, g.packages) && NodesIndexed(nodes, g.nodes)
      && (r.Success? <==> forall b :: b in boundaries ==> BoundaryHolds(packages, g, ExpectedRoots(boundaries), b))
    ensures r.Success? ==> forall b :: b in boundaries ==>
      b.packageName in r.value
      && exists other :: other in boundaries && other.packageName == b.packageName
                         && r.value[b.packageName] == other.allowed
  {
    hide BoundaryHolds, Indexable, PackagesIndexed, NodesIndexed, ExpectedRoots;
    g := Graph(map[], map[], members);
    var byId := IndexPackages(packages);
    if byId.Failure? {
      return Failure(byId.error), g;
    }
    var nodesById := IndexNodes(nodes);
    if nodesById.Failure? {
      return Failure(nodesById.error), g;
    }
    var graph := Graph(byId.value, nodesById.value, members);
    g := graph;
    var roots := ExpectedRoots(boundaries);
    var results: map<string, set<string>> := map[];
    for i := 0 to |boundaries|
      invariant forall j :: 0 <= j < i ==> BoundaryHolds(packages, g, roots, boundaries[j])
      invariant forall j :: 0 <= j < i ==> boundaries[j].packageName in results
      invariant forall name :: name in results ==>
        exists other :: other in boundaries && other.packageName == name && results[name] == other.allowed
    {
      var b := boundaries[i];
      var closure := ValidateBoundary(packages, graph, roots, b);
      if closure.Failure? {
        assert b in boundaries;
        return Failure(closure.error), g;
      }
      results := results[b.packageName := closure.value];
    }
    return Success(results), g;
  }
}
